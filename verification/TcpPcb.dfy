/** The protocol control block as the kernel keeps it: a receive ring and a send buffer in
    fixed arrays, a fixed SACK table, a list of parked chunks, and code that updates them in
    place. Every method is proved to compute the corresponding function of `TcpSpec`. */
module TcpPcb {
  import opened TcpSpec
  import Spec = TcpSpec
  import opened TcpInvariant

  // ---- the receive ring ------------------------------------------------------------------

  function RingView(b: seq<Byte>, head: nat, len: nat): seq<Byte>
    requires |b| == BUF_SIZE && head < BUF_SIZE && len <= BUF_SIZE
  {
    if head + len <= BUF_SIZE then b[head..head + len] else b[head..] + b[..head + len - BUF_SIZE]
  }

  function Wrap(i: nat): nat
    requires i < 2 * BUF_SIZE
  {
    if i < BUF_SIZE then i else i - BUF_SIZE
  }

  lemma RingAt(b: seq<Byte>, head: nat, len: nat, i: nat)
    requires |b| == BUF_SIZE && head < BUF_SIZE && i < len <= BUF_SIZE
    ensures |RingView(b, head, len)| == len && RingView(b, head, len)[i] == b[Wrap(head + i)]
  {
  }

  lemma RingLen(b: seq<Byte>, head: nat, len: nat)
    requires |b| == BUF_SIZE && head < BUF_SIZE && len <= BUF_SIZE
    ensures |RingView(b, head, len)| == len
  {
  }

  /** `c` is `b` with `data` written at `tail`, wrapping to the front after `first` bytes. */
  predicate WrittenAt(b: seq<Byte>, c: seq<Byte>, tail: nat, first: nat, data: seq<Byte>) {
    && |b| == |c| == BUF_SIZE && first <= |data| <= BUF_SIZE
    && forall j :: 0 <= j < BUF_SIZE ==>
         c[j] == if tail <= j < tail + first then data[j - tail]
                 else if j < |data| - first then data[first + j] else b[j]
  }

  lemma RingAppend(b: seq<Byte>, c: seq<Byte>, head: nat, len: nat, data: seq<Byte>, tail: nat, first: nat)
    requires head < BUF_SIZE && len + |data| <= BUF_SIZE
    requires tail == Wrap(head + len) && first == Min(BUF_SIZE - tail, |data|)
    requires WrittenAt(b, c, tail, first, data)
    ensures RingView(c, head, len + |data|) == RingView(b, head, len) + data
  {
    hide RingView;
    RingLen(c, head, len + |data|);
    RingLen(b, head, len);
    var l, r := RingView(c, head, len + |data|), RingView(b, head, len) + data;
    forall i | 0 <= i < |l| ensures l[i] == r[i] {
      RingAt(c, head, len + |data|, i);
      if i < len { RingAt(b, head, len, i); }
      var j := Wrap(head + i);
      assert c[j] == if tail <= j < tail + first then data[j - tail]
                     else if j < |data| - first then data[first + j] else b[j];
    }
  }

  lemma RingRead(b: seq<Byte>, head: nat, len: nat, n: nat)
    requires |b| == BUF_SIZE && head < BUF_SIZE && n <= len <= BUF_SIZE
    ensures var first := Min(BUF_SIZE - head, n);
            b[head..head + first] + b[..n - first] == RingView(b, head, len)[..n]
    ensures RingView(b, (head + n) % BUF_SIZE, len - n) == RingView(b, head, len)[n..]
  {
    hide RingView;
    var k := Wrap(head + n);
    assert (head + n) % BUF_SIZE == k;
    RingLen(b, head, len);
    RingLen(b, k, len - n);
    var first := Min(BUF_SIZE - head, n);
    forall i | 0 <= i < n ensures (b[head..head + first] + b[..n - first])[i] == RingView(b, head, len)[i] {
      RingAt(b, head, len, i);
    }
    var rest := RingView(b, k, len - n);
    forall j | n <= j < len ensures rest[j - n] == RingView(b, head, len)[j] {
      RingAt(b, k, len - n, j - n);
      RingAt(b, head, len, j);
    }
  }

  /** memcpy into a buffer. */
  method CopyInto(dst: array<Byte>, at: nat, src: seq<Byte>)
    requires at + |src| <= dst.Length
    modifies dst
    ensures forall j :: 0 <= j < dst.Length ==>
              dst[j] == if at <= j < at + |src| then src[j - at] else old(dst[j])
  {
    for i := 0 to |src|
      invariant forall j :: 0 <= j < dst.Length ==>
                  dst[j] == if at <= j < at + i then src[j - at] else old(dst[j])
    {
      dst[at + i] := src[i];
    }
  }

  /** memmove of the tail of a buffer's used part to its front. */
  method ShiftDown(b: array<Byte>, len: nat, k: nat)
    requires k <= len <= b.Length
    modifies b
    ensures b[..len - k] == old(b[k..len])
  {
    for i := 0 to len - k
      invariant forall j :: 0 <= j < i ==> b[j] == old(b[k + j])
      invariant forall j :: i <= j < b.Length ==> b[j] == old(b[j])
    {
      b[i] := b[k + i];
    }
  }

  /** The two memcpy calls of rcv_append: up to the array's end, then from its start. */
  method WriteRing(ring: array<Byte>, head: nat, len: nat, data: seq<Byte>)
    requires ring.Length == BUF_SIZE && head < BUF_SIZE && len + |data| <= BUF_SIZE
    modifies ring
    ensures RingView(ring[..], head, len + |data|) == old(RingView(ring[..], head, len)) + data
  {
    var tail := (head + len) % BUF_SIZE;
    var first := if BUF_SIZE - tail < |data| then BUF_SIZE - tail else |data|;
    CopyInto(ring, tail, data[..first]);
    CopyInto(ring, 0, data[first..]);
    RingAppend(old(ring[..]), ring[..], head, len, data, tail, first);
  }

  /** The walk of ooo_insert: the first chunk that ends after `at`. */
  method SkipBefore(q: seq<Chunk>, at: nat) returns (i: nat)
    ensures i == FirstAfter(q, at)
  {
    i := 0;
    while i < |q| && q[i].End() <= at
      invariant i <= |q| && FirstAfter(q, at) == i + FirstAfter(q[i..], at)
    {
      assert q[i..][1..] == q[i + 1..];
      i := i + 1;
    }
  }

  /** Cut the data against the chunk that follows and put it at index `i`. */
  method PlaceChunk(q: seq<Chunk>, i: nat, held: nat, at: nat, data0: seq<Byte>, mem: bool)
    returns (u: seq<Chunk>, added: nat)
    requires i <= |q| && (i < |q| ==> at <= q[i].at) && held == OooBytes(q)
    ensures u == PlaceAt(q, i, at, data0, held, mem)
    ensures OooBytes(u) == held + added
  {
    var data := if i < |q| && q[i].at < at + |data0| then data0[..q[i].at - at] else data0;
    if |data| == 0 || held + |data| > OOO_MAX || !mem {
      u, added := q, 0;
      assert u == q[..i] + q[i..];
    } else {
      u := q[..i] + [Chunk(at, data)] + q[i..];
      added := |data|;
      assert u == q[..i] + ([Chunk(at, data)] + q[i..]);
      InsertedBytes(q, i, Chunk(at, data));
    }
  }

  /** Walk past the chunks that end before the data, cut the data against its neighbours,
      and link it in. */
  method InsertChunk(q: seq<Chunk>, held: nat, at: nat, data: seq<Byte>, mem: bool)
    returns (u: seq<Chunk>, added: nat)
    requires Sorted(q, 0) && held == OooBytes(q)
    ensures u == Spec.OooInsert(q, at, data, held, mem) && Sorted(u, 0)
    ensures OooBytes(u) == held + added
  {
    hide Sorted, OooBytes, PlaceAt;
    InsertSorted(q, at, data, held, mem);
    var i := SkipBefore(q, at);
    if i < |q| && q[i].at <= at {
      var covered := q[i].End() - at;
      if covered >= |data| { return q, 0; }
      if i + 1 < |q| { SortedPair(q, 0, i); }
      u, added := PlaceChunk(q, i + 1, held, at + covered, data[covered..], mem);
    } else {
      u, added := PlaceChunk(q, i, held, at, data, mem);
    }
  }

  /** One pass of sack_options over the queue, stopping at four blocks. */
  method CollectBlocks(ooo: seq<Chunk>, newest: nat, want: bool, start: seq<Range>) returns (blocks: seq<Range>)
    ensures forall all: seq<Range> :: start == TakeAtMost(all, SACK_BLOCKS) ==>
              blocks == TakeAtMost(all + BlocksOf(ooo, newest, want), SACK_BLOCKS)
  {
    blocks := start;
    var x := 0;
    while x < |ooo| && |blocks| < SACK_BLOCKS
      invariant 0 <= x <= |ooo|
      invariant |start| <= SACK_BLOCKS ==> |blocks| <= SACK_BLOCKS
      invariant blocks == if x == 0 then start else start + BlocksOf(ooo[..x], newest, want)
    {
      BlocksOfSnoc(ooo[..x], ooo[x], newest, want);
      assert ooo[..x + 1] == ooo[..x] + [ooo[x]];
      assert x == 0 ==> start + BlocksOf(ooo[..x], newest, want) == start;
      if Holds(ooo[x], newest) == want { blocks := blocks + [Range(ooo[x].at, ooo[x].End())]; }
      x := x + 1;
    }
    assert ooo[..|ooo|] == ooo;
    BlocksOfPrefix(ooo, x, newest, want);
    forall all: seq<Range> | start == TakeAtMost(all, SACK_BLOCKS)
      ensures blocks == TakeAtMost(all + BlocksOf(ooo, newest, want), SACK_BLOCKS)
    {
    }
  }

  /** The parked chunks are in order and `n` is their total length. */
  ghost predicate QueueOk(q: seq<Chunk>, n: nat) { n == OooBytes(q) && Sorted(q, 0) }

  /** `ctl` holds the scalar members and the parked chunks; its three other sequences are not
      used: the bytes and the SACK table live in the arrays. */
  class Pcb {
    var ctl: Spec.Pcb
    const sndbuf: array<Byte>
    var sndLen: nat
    const sacked: array<Range>
    var nsacked: nat
    const rcvbuf: array<Byte>
    var rcvHead: nat
    var rcvLen: nat
    var oooBytes: nat

    ghost predicate Valid()
      reads this
    {
      && sndbuf.Length == BUF_SIZE && rcvbuf.Length == BUF_SIZE && sacked.Length == MAX_SACK
      && sndbuf != rcvbuf
      && sndLen <= BUF_SIZE && nsacked <= MAX_SACK
      && rcvHead < BUF_SIZE && rcvLen <= BUF_SIZE
      && ctl.snd.mss >= 1 && ctl.snd.una <= ctl.snd.nxt
      && QueueOk(ctl.rcv.ooo, oooBytes)
    }

    ghost function SndBytes(): seq<Byte>
      requires sndLen <= sndbuf.Length
      reads this`sndLen, sndbuf
    {
      sndbuf[..sndLen]
    }

    ghost function Table(): seq<Range>
      requires nsacked <= sacked.Length
      reads this`nsacked, sacked
    {
      sacked[..nsacked]
    }

    ghost function RcvBytes(): seq<Byte>
      requires rcvbuf.Length == BUF_SIZE && rcvHead < BUF_SIZE && rcvLen <= BUF_SIZE
      reads this`rcvHead, this`rcvLen, rcvbuf
    {
      RingView(rcvbuf[..], rcvHead, rcvLen)
    }

    ghost function View(): Spec.Pcb
      requires Valid()
      reads this, sndbuf, rcvbuf, sacked
    {
      ctl.(snd := ctl.snd.(buf := SndBytes(), sacked := Table()), rcv := ctl.rcv.(buf := RcvBytes()))
    }

    /** A block as the handshake leaves it. */
    constructor (base: nat, peerBase: nat, mss: nat, wnd: nat, sackOk: bool)
      requires base >= 1 && mss >= 1
      ensures Valid() && fresh(sndbuf) && fresh(rcvbuf) && fresh(sacked)
      ensures View().state.Established? && View().err.NoError? && View().snd.una == View().snd.nxt == base
      ensures View().snd.buf == [] && View().snd.sacked == [] && View().snd.mss == mss && !View().snd.finQueued
      ensures !View().snd.finSent && View().rcv.nxt == peerBase && View().rcv.buf == [] && View().rcv.ooo == []
      ensures !View().rcv.hasFin && !View().rcv.finRcvd
    {
      ctl := Spec.Pcb(Established,
                      Snd(base, base, [], wnd, peerBase, base, mss, false, false, [], 0, 0, 0, false, false),
                      Rcv(peerBase, [], [], 0, false, 0, false, sackOk, 0, false, 0, false), NoError);
      sndbuf := new Byte[BUF_SIZE];
      rcvbuf := new Byte[BUF_SIZE];
      sacked := new Range[MAX_SACK](_ => Range(0, 0));
      sndLen, nsacked, rcvHead, rcvLen, oooBytes := 0, 0, 0, 0, 0;
    }

    // ---- receiving -----------------------------------------------------------------------

    method RcvAppend(data: seq<Byte>) returns (n: nat)
      requires Valid()
      modifies this`rcvLen, this`ctl, rcvbuf
      ensures Valid() && n == Min(|data|, RcvSpace(old(View().rcv)))
      ensures View() == old(View()).(rcv := Spec.RcvAppend(old(View().rcv), data))
    {
      hide SndBytes, Table, QueueOk, RingView;
      n := Min(|data|, BUF_SIZE - rcvLen);
      RingLen(rcvbuf[..], rcvHead, rcvLen);
      WriteRing(rcvbuf, rcvHead, rcvLen, data[..n]);
      rcvLen := rcvLen + n;
      ctl := ctl.(rcv := ctl.rcv.(nxt := ctl.rcv.nxt + n));
    }

    method OooInsert(at: nat, data: seq<Byte>, mem: bool)
      requires Valid()
      modifies this`ctl, this`oooBytes
      ensures Valid()
      ensures Sorted(old(ctl.rcv.ooo), 0)
      ensures View() == old(View()).(rcv := old(View().rcv).(
                          ooo := Spec.OooInsert(old(ctl.rcv.ooo), at, data, OooBytes(old(ctl.rcv.ooo)), mem)))
    {
      hide SndBytes, Table, RcvBytes, Sorted, OooBytes, Spec.OooInsert;
      var q, added := InsertChunk(ctl.rcv.ooo, oooBytes, at, data, mem);
      ctl := ctl.(rcv := ctl.rcv.(ooo := q));
      oooBytes := oooBytes + added;
    }

    /** Consume the first parked chunk; false when the ring filled up before its end. */
    method DrainHead() returns (whole: bool)
      requires Valid() && DrainReady(ctl.rcv)
      modifies this`ctl, this`oooBytes, this`rcvLen, rcvbuf
      ensures Valid()
      ensures View() == old(View()).(rcv := DrainStep(old(View().rcv)))
      ensures whole == (|ctl.rcv.ooo| < |old(ctl.rcv.ooo)|)
    {
      hide SndBytes, Table, RcvBytes, QueueOk, HeadTaken, HeadDropped;
      var o := ctl.rcv.ooo[0];
      TakeHead();
      HeadTakenKeepsQueue(old(View().rcv));
      whole := o.End() <= ctl.rcv.nxt;
      HeadDroppedLength(View().rcv);
      DropHead(whole);
    }

    /** Append the unseen bytes of the first parked chunk. */
    method TakeHead()
      requires Valid() && DrainReady(ctl.rcv)
      modifies this`ctl, this`rcvLen, rcvbuf
      ensures Valid()
      ensures View() == old(View()).(rcv := HeadTaken(old(View().rcv)))
    {
      hide SndBytes, Table, RcvBytes, QueueOk, Spec.RcvAppend;
      var o := ctl.rcv.ooo[0];
      if ctl.rcv.nxt < o.End() {
        var _ := RcvAppend(o.data[ctl.rcv.nxt - o.at..]);
      }
    }

    /** Unlink the first chunk, or cut off the part of it that `nxt` has passed. */
    method DropHead(whole: bool)
      requires Valid() && DrainReady(ctl.rcv) && whole == (ctl.rcv.ooo[0].End() <= ctl.rcv.nxt)
      modifies this`ctl, this`oooBytes
      ensures Valid()
      ensures View() == old(View()).(rcv := old(View().rcv).(ooo := HeadDropped(old(View().rcv))))
    {
      hide SndBytes, Table, RcvBytes, QueueOk;
      var r := ctl.rcv;
      var o := r.ooo[0];
      DroppedQueueOk(r, oooBytes);
      if whole {
        ctl := ctl.(rcv := r.(ooo := r.ooo[1..]));
        oooBytes := oooBytes - |o.data|;
      } else {
        var consumed := r.nxt - o.at;
        ctl := ctl.(rcv := r.(ooo := [Chunk(r.nxt, o.data[consumed..])] + r.ooo[1..]));
        oooBytes := oooBytes - consumed;
      }
    }

    method OooDrain()
      requires Valid()
      modifies this`ctl, this`oooBytes, this`rcvLen, rcvbuf
      ensures Valid() && View() == DrainFin(old(View()))
    {
      hide SndBytes, Table, RcvBytes, QueueOk, Spec.CheckFin, DrainStep;
      var more := true;
      while more && ctl.rcv.ooo != [] && ctl.rcv.ooo[0].at <= ctl.rcv.nxt
        invariant Valid()
        invariant View() == old(View()).(rcv := View().rcv)
        invariant if more then Drain(View().rcv) == Drain(old(View().rcv)) else View().rcv == Drain(old(View().rcv))
        decreases |ctl.rcv.ooo|, more
      {
        more := DrainHead();
      }
      var _ := CheckFin();
    }

    /** The state the peer's FIN leads to. */
    method StateAfterFin() returns (state: State)
      requires Valid()
      ensures state == FinState(View())
    {
      hide SndBytes, Table, RcvBytes, QueueOk;
      state := ctl.state;
      match state {
        case Established => state := CloseWait;
        case FinWait1 =>
          if ctl.snd.finSent && ctl.snd.una == ctl.snd.nxt { state := TimeWait; } else { state := Closing; }
        case FinWait2 => state := TimeWait;
        case _ =>
      }
    }

    method CheckFin() returns (fin: bool)
      requires Valid()
      modifies this`ctl
      ensures Valid() && View() == Spec.CheckFin(old(View()))
      ensures fin == FinReady(old(ctl.rcv))
    {
      hide SndBytes, Table, RcvBytes, QueueOk;
      var r := ctl.rcv;
      fin := r.hasFin && r.nxt == r.finSeq && !r.finRcvd;
      if fin {
        var state := StateAfterFin();
        hide FinState;
        ctl := ctl.(state := state, rcv := r.(finRcvd := true, nxt := r.nxt + 1));
      }
    }

    // ---- the SACK scoreboard ---------------------------------------------------------------

    /** Up to four ranges of parked data, the newest first. */
    method SackOptions() returns (blocks: seq<Range>)
      ensures blocks == SackBlocks(ctl.rcv)
    {
      blocks := [];
      var r := ctl.rcv;
      if !r.sackOk || r.ooo == [] { return; }
      var newest := if r.oooNewest != 0 then r.oooNewest else r.ooo[0].at;
      blocks := CollectBlocks(r.ooo, newest, true, []);
      assert [] + BlocksOf(r.ooo, newest, true) == BlocksOf(r.ooo, newest, true);
      assert TakeAtMost<Range>([], SACK_BLOCKS) == [];
      blocks := CollectBlocks(r.ooo, newest, false, blocks);
    }

    method NoteSacked(blocks: seq<Range>)
      requires Valid()
      modifies this`nsacked, sacked
      ensures Valid()
      ensures Table() == Spec.NoteSacked(old(Table()), blocks, ctl.snd.una, ctl.snd.nxt)
    {
      hide QueueOk;
      var una, nxt := ctl.snd.una, ctl.snd.nxt;
      ghost var goal := Spec.NoteSacked(Table(), blocks, una, nxt);
      assert blocks[0..] == blocks;
      for i := 0 to |blocks|
        invariant nsacked <= MAX_SACK
        invariant Spec.NoteSacked(Table(), blocks[i..], una, nxt) == goal
      {
        assert blocks[i..][0] == blocks[i] && blocks[i..][1..] == blocks[i + 1..];
        var a, e := blocks[i].start, blocks[i].end;
        if a >= e || a < una || e > nxt { continue; }
        AbsorbRange(a, e);
      }
    }

    /** Merge one range into the table; every merge starts the scan over. */
    method AbsorbRange(a0: nat, e0: nat)
      requires sacked.Length == MAX_SACK && nsacked <= MAX_SACK
      modifies this`nsacked, sacked
      ensures nsacked <= MAX_SACK
      ensures sacked[..nsacked] == Absorb(old(sacked[..nsacked]), a0, e0)
    {
      hide Absorb, FirstTouch;
      var a: nat, e: nat := a0, e0;
      var k := 0;
      while k < nsacked
        invariant k <= nsacked <= MAX_SACK
        invariant FirstTouch(sacked[..nsacked], k, a, e) == FirstTouch(sacked[..nsacked], 0, a, e)
        invariant Absorb(sacked[..nsacked], a, e) == Absorb(old(sacked[..nsacked]), a0, e0)
        decreases nsacked, nsacked - k
      {
        var r := sacked[k];
        ghost var t := sacked[..nsacked];
        AbsorbTurn(t, k, a, e);
        if r.start <= e && a <= r.end {
          sacked[k] := sacked[nsacked - 1];
          nsacked := nsacked - 1;
          assert sacked[..nsacked] == SwapRemove(t, k);
          a, e := LowStart(r, a), HighEnd(r, e);
          k := 0;
        } else {
          k := k + 1;
        }
      }
      ghost var t := sacked[..nsacked];
      AbsorbEnd(t, a, e);
      if nsacked < MAX_SACK {
        sacked[nsacked] := Range(a, e);
        nsacked := nsacked + 1;
        assert sacked[..nsacked] == t + [Range(a, e)];
      }
    }

    method TrimSacked()
      requires sacked.Length == MAX_SACK && nsacked <= MAX_SACK
      modifies this`nsacked, sacked
      ensures nsacked <= MAX_SACK
      ensures sacked[..nsacked] == Spec.TrimSacked(old(sacked[..nsacked]), 0, ctl.snd.una)
    {
      var k := 0;
      while k < nsacked
        invariant k <= nsacked <= MAX_SACK
        invariant Spec.TrimSacked(sacked[..nsacked], k, ctl.snd.una)
                  == Spec.TrimSacked(old(sacked[..nsacked]), 0, ctl.snd.una)
        decreases nsacked - k
      {
        ghost var t := sacked[..nsacked];
        if sacked[k].end <= ctl.snd.una {
          sacked[k] := sacked[nsacked - 1];
          nsacked := nsacked - 1;
          assert sacked[..nsacked] == SwapRemove(t, k);
        } else {
          if sacked[k].start < ctl.snd.una {
            sacked[k] := Range(ctl.snd.una, sacked[k].end);
            assert sacked[..nsacked] == t[k := Range(ctl.snd.una, t[k].end)];
          }
          k := k + 1;
        }
      }
    }

    method SackedThrough(q: nat) returns (end: nat)
      requires sacked.Length == MAX_SACK && nsacked <= MAX_SACK
      ensures end == Spec.SackedThrough(Table(), q)
    {
      ghost var t := sacked[..nsacked];
      for i := 0 to nsacked
        invariant Spec.SackedThrough(t[i..], q) == Spec.SackedThrough(t, q)
      {
        assert t[i..][0] == sacked[i] && t[i..][1..] == t[i + 1..];
        if sacked[i].start <= q < sacked[i].end { return sacked[i].end; }
      }
      return 0;
    }

    method NextSackStart(q: nat, n: nat) returns (best: nat)
      requires sacked.Length == MAX_SACK && nsacked <= MAX_SACK
      ensures best == Spec.NextSackStart(Table(), q, n)
    {
      best := 0;
      ghost var t := sacked[..nsacked];
      for i := 0 to nsacked
        invariant best == Spec.NextSackStart(t[..i], q, n)
      {
        assert t[..i + 1][..i] == t[..i];
        var s := sacked[i].start;
        if q < s < q + n && (best == 0 || s < best) { best := s; }
      }
      assert t[..nsacked] == t;
    }

    // ---- emitting ----------------------------------------------------------------------------

    method SendSeg(sq: nat, fin: bool, rst: bool, data: seq<Byte>, withSack: bool) returns (g: Segment)
      requires Valid()
      modifies this`ctl
      ensures Valid() && g == MakeSeg(old(View()), sq, fin, rst, data, withSack)
      ensures View() == old(View()).(rcv := AckCovered(old(View().rcv)))
    {
      hide SndBytes, Table, QueueOk, BlocksOf;
      RingLen(rcvbuf[..], rcvHead, rcvLen);
      var wnd := BUF_SIZE - rcvLen;
      if wnd > WND_MAX { wnd := WND_MAX; }
      assert wnd == AdvWnd(View().rcv);
      var blocks := [];
      if withSack { blocks := SackOptions(); }
      assert blocks == SackOption(View().rcv, withSack);
      var r := ctl.rcv;
      ctl := ctl.(rcv := r.(wndAdv := wnd, ackPending := false, ackSegs := 0, delackArmed := false, oooNewest := 0));
      g := Segment(sq, r.nxt, true, fin, false, rst, wnd, data, blocks);
    }

    method SendAck() returns (out: seq<Segment>)
      requires Valid()
      modifies this`ctl
      ensures Valid() && Step(View(), out) == Spec.SendAck(old(View()))
    {
      hide SndBytes, Table, RcvBytes, QueueOk, AckCovered, MakeSeg;
      var g := SendSeg(ctl.snd.nxt, false, false, [], true);
      out := [g];
    }

    method AckLater(datalen: nat) returns (out: seq<Segment>)
      requires Valid()
      modifies this`ctl
      ensures Valid() && Step(View(), out) == Spec.AckLater(old(View()), datalen)
    {
      hide SndBytes, Table, RcvBytes, QueueOk, Spec.SendAck;
      var segs := CountSeg(ctl.rcv.ackSegs, datalen >= ctl.snd.mss);
      ctl := ctl.(rcv := ctl.rcv.(ackPending := true, ackSegs := segs));
      if segs >= 2 {
        out := SendAck();
      } else {
        ctl := ctl.(rcv := ctl.rcv.(delackArmed := true));
        out := [];
      }
    }

    method SetClosed(err: Errno)
      requires Valid()
      modifies this`ctl, this`oooBytes
      ensures Valid() && View() == Spec.SetClosed(old(View()), err)
    {
      hide SndBytes, Table, RcvBytes, QueueOk;
      if !ctl.state.Closed? {
        ctl := Spec.Pcb(Closed, ctl.snd.(rtoArmed := false), ctl.rcv.(ooo := []), FirstErr(ctl.err, err));
        oooBytes := 0;
        EmptyQueue();
      }
    }

    method Abort(err: Errno) returns (out: seq<Segment>)
      requires Valid()
      modifies this`ctl, this`oooBytes
      ensures Valid() && Step(View(), out) == Spec.Abort(old(View()), err)
    {
      hide SndBytes, Table, RcvBytes, QueueOk, AckCovered, MakeSeg;
      out := [];
      if !ctl.state.Closed? {
        var g := SendSeg(ctl.snd.nxt, false, true, [], false);
        out := [g];
      }
      SetClosed(err);
    }

    // ---- output ----------------------------------------------------------------------------

    /** Send what the window allows: data around the SACKed ranges, then the FIN. */
    method Output(room: nat) returns (out: seq<Segment>)
      requires Valid()
      modifies this`ctl
      ensures Valid() && Step(View(), out) == Spec.Output(old(View()), room)
    {
      hide SndBytes, RcvBytes, Table, QueueOk, OutputLoop, Spec.OutputFin, SendWindow, OutputDone;
      out := [];
      var st := ctl.state;
      if st.Established? || st.CloseWait? || st.FinWait1? || st.Closing? || st.LastAck? {
        var wnd := SendWnd();
        out := OutputData(wnd, room);
        var fin := OutputFin();
        out := out + fin;
        LeaveRecovery();
      }
    }

    method LeaveRecovery()
      requires Valid()
      modifies this`ctl
      ensures Valid() && View() == OutputDone(old(View()))
    {
      hide SndBytes, RcvBytes, Table, QueueOk;
      if ctl.snd.recover != 0 && ctl.snd.nxt >= ctl.snd.recover {
        ctl := ctl.(snd := ctl.snd.(recover := 0));
      }
    }

    /** The peer's window, at most sixteen segments, and one byte to probe a closed one. */
    method SendWnd() returns (wnd: nat)
      requires Valid()
      ensures wnd == SendWindow(View().snd)
    {
      hide RcvBytes, Table, QueueOk;
      var s := ctl.snd;
      wnd := Min(s.wnd, CWND_SEGS * s.mss);
      if wnd == 0 && s.nxt == s.una && sndLen > 0 { wnd := 1; }
    }

    /** The data loop; every turn is one `NextMove` of the specification. */
    method OutputData(wnd: nat, room: nat) returns (out: seq<Segment>)
      requires Valid()
      modifies this`ctl
      ensures Valid() && Step(View(), out) == OutputLoop(old(View()), wnd, room)
      ensures sndLen == old(sndLen)
    {
      hide SndBytes, Table, RcvBytes, QueueOk, NextMove;
      out := [];
      var left := room;
      var going := true;
      ghost var goal := OutputLoop(View(), wnd, room);
      while going
        invariant Valid()
        invariant going ==> goal == Step(OutputLoop(View(), wnd, left).p, out + OutputLoop(View(), wnd, left).out)
        invariant !going ==> goal == Step(View(), out)
        decreases going, View().snd.una + |View().snd.buf| - View().snd.nxt
      {
        NextMoveAdvances(View(), wnd, left);
        var g;
        going, g := OutputTurn(wnd, left);
        if g != [] {
          ghost var rest := OutputLoop(View(), wnd, left - 1).out;
          assert out + (g + rest) == (out + g) + rest;
          left := left - 1;
        } else {
          assert out + [] == out;
        }
        out := out + g;
      }
    }

    /** One turn: stop, jump over a SACKed range, or send one segment. */
    method OutputTurn(wnd: nat, room: nat) returns (going: bool, g: seq<Segment>)
      requires Valid()
      modifies this`ctl
      ensures Valid()
      ensures var m := NextMove(old(View()), wnd, room);
              && View() == m.p && going == !m.Stop?
              && g == (if m.Sent? then [m.seg] else [])
    {
      hide RcvBytes, Table, QueueOk, MakeSeg, AckCovered, Spec.SackedThrough, SegLen;
      g := [];
      var s := ctl.snd;
      var inflight := s.nxt - s.una;
      if inflight >= sndLen || inflight >= wnd { return false, []; }
      var end := SackedThrough(s.nxt);
      SackedThroughBeyond(Table(), s.nxt);
      if end != 0 {
        if end > s.una + sndLen { end := s.una + sndLen; }
        ctl := ctl.(snd := s.(nxt := end));
        return true, [];
      }
      if s.recover != 0 && s.nxt >= s.recover { return false, []; }
      going, g := SendNext(wnd, room);
    }

    method SendNext(wnd: nat, room: nat) returns (going: bool, g: seq<Segment>)
      requires Valid() && ctl.snd.nxt - ctl.snd.una < sndLen && ctl.snd.nxt - ctl.snd.una < wnd
      modifies this`ctl
      ensures Valid() && going == (room != 0)
      ensures var p, s := old(View()), old(View()).snd;
              var n := SegLen(s, wnd);
              && s.nxt - s.una + n <= |s.buf|
              && (room == 0 ==>
                    g == [] && View() == Spec.Pcb(p.state, s.(retryArmed := true), AckCovered(p.rcv), p.err))
              && (room != 0 ==>
                    && g == [MakeSeg(p, s.nxt, false, false, s.buf[s.nxt - s.una..][..n], false)]
                    && View() == Spec.Pcb(p.state, s.(nxt := s.nxt + n, rtoArmed := true), AckCovered(p.rcv), p.err))
    {
      hide RcvBytes, Table, QueueOk, MakeSeg, AckCovered, SegLen;
      var s := ctl.snd;
      var inflight := s.nxt - s.una;
      var n := NextLen(wnd);
      assert SndBytes()[inflight..][..n] == sndbuf[inflight..inflight + n];
      var seg := SendSeg(s.nxt, false, false, sndbuf[inflight..inflight + n], false);
      if room == 0 {
        ctl := ctl.(snd := ctl.snd.(retryArmed := true));
        return false, [];
      }
      ctl := ctl.(snd := ctl.snd.(nxt := s.nxt + n, rtoArmed := true));
      return true, [seg];
    }

    /** The next segment's length: what is left, one segment, the window, or the next hole's end. */
    method NextLen(wnd: nat) returns (n: nat)
      requires Valid() && ctl.snd.nxt - ctl.snd.una < sndLen && ctl.snd.nxt - ctl.snd.una < wnd
      ensures n == SegLen(View().snd, wnd) && n <= sndLen - (ctl.snd.nxt - ctl.snd.una)
    {
      hide RcvBytes, Table, QueueOk, Spec.NextSackStart;
      var s := ctl.snd;
      var inflight := s.nxt - s.una;
      n := Min(Min(sndLen - inflight, s.mss), wnd - inflight);
      var hole := NextSackStart(s.nxt, n);
      NextSackStartInside(Table(), s.nxt, n);
      if hole != 0 { n := hole - s.nxt; }
    }

    method OutputFin() returns (out: seq<Segment>)
      requires Valid()
      modifies this`ctl
      ensures Valid() && Step(View(), out) == Spec.OutputFin(old(View()))
    {
      hide RcvBytes, Table, QueueOk, MakeSeg, AckCovered;
      out := [];
      var s := ctl.snd;
      if s.finQueued && !s.finSent && s.nxt == s.una + sndLen && !(s.recover != 0 && s.nxt >= s.recover) {
        var g := SendSeg(s.nxt, true, false, [], false);
        out := [g];
        ctl := ctl.(snd := ctl.snd.(nxt := s.nxt + 1, finSent := true, rtoArmed := true));
      }
    }

    // ---- tcp_rx, the synchronized states -----------------------------------------------------

    /** Drop acknowledged bytes from the front of the send buffer. */
    method DropAcked(acked: nat)
      requires Valid()
      modifies this`sndLen, sndbuf
      ensures Valid() && SndBytes() == old(SndBytes())[Min(acked, old(sndLen))..]
    {
      hide QueueOk;
      var n := if acked < sndLen then acked else sndLen;
      if n > 0 {
        ShiftDown(sndbuf, sndLen, n);
        assert old(sndbuf[..sndLen])[n..] == old(sndbuf[n..sndLen]);
        sndLen := sndLen - n;
      }
    }

    method AckAdvance(g: Segment)
      requires Valid() && ctl.snd.una < g.ack
      modifies this`ctl, this`sndLen, sndbuf, this`nsacked, sacked
      ensures Valid()
      ensures View() == old(View()).(snd := Spec.AckAdvance(old(View()).snd, g))
    {
      hide RcvBytes, QueueOk, Spec.TrimSacked, Spec.NoteSacked;
      ghost var v := View();
      DropAcked(g.ack - ctl.snd.una);
      var s := ctl.snd;
      var nxt := Max(s.nxt, g.ack);
      ctl := ctl.(snd := s.(una := g.ack, nxt := nxt, recover := RecoverAfter(s.recover, g.ack),
                            retries := 0, rtoArmed := g.ack != nxt, dupAcks := 0));
      TrimSacked();
      NoteSacked(g.sacks);
    }

    method DupAck(g: Segment, room: nat) returns (out: seq<Segment>)
      requires Valid()
      modifies this`ctl, this`nsacked, sacked
      ensures Valid() && Step(View(), out) == Spec.DupAck(old(View()), g, room)
    {
      hide SndBytes, RcvBytes, QueueOk, Spec.NoteSacked, Spec.Output;
      var before := nsacked;
      NoteSacked(g.sacks);
      var s := ctl.snd;
      var dups := s.dupAcks + 1;
      out := [];
      if dups == 3 {
        ctl := ctl.(snd := s.(dupAcks := dups, recover := s.nxt, nxt := s.una, finSent := false));
        out := Output(room);
      } else {
        ctl := ctl.(snd := s.(dupAcks := dups));
        if dups > 3 && nsacked != before { out := Output(room); }
      }
    }

    method AckStage(g: Segment, room: nat) returns (out: seq<Segment>)
      requires Valid()
      modifies this`ctl, this`sndLen, sndbuf, this`nsacked, sacked
      ensures Valid() && Step(View(), out) == Spec.AckStage(old(View()), g, room)
    {
      hide SndBytes, RcvBytes, Table, QueueOk, Spec.AckAdvance, Spec.DupAck;
      out := [];
      if g.ack > ctl.snd.una {
        AckAdvance(g);
      } else if g.ack == ctl.snd.una && g.data == [] && ctl.snd.nxt != ctl.snd.una && g.wnd == ctl.snd.wnd {
        out := DupAck(g, room);
      }
    }

    /** Take the segment's window and let an acknowledged FIN change the state. */
    method AckedState(g: Segment)
      requires Valid()
      modifies this`ctl, this`oooBytes
      ensures Valid()
      ensures View() == Spec.AckedState(old(View()).(snd := WndUpdate(old(View()).snd, g)))
    {
      hide SndBytes, RcvBytes, Table, QueueOk, Spec.SetClosed;
      UpdateWnd(g);
      if ctl.snd.finSent && ctl.snd.una == ctl.snd.nxt {
        match ctl.state {
          case FinWait1 => ctl := ctl.(state := FinWait2);
          case Closing => ctl := ctl.(state := TimeWait);
          case LastAck => SetClosed(NoError);
          case _ =>
        }
      }
    }

    method UpdateWnd(g: Segment)
      requires Valid()
      modifies this`ctl
      ensures Valid() && View() == old(View()).(snd := WndUpdate(old(View()).snd, g))
    {
      hide SndBytes, RcvBytes, Table, QueueOk;
      var s := ctl.snd;
      if s.wl1 < g.sq || (s.wl1 == g.sq && s.wl2 <= g.ack) {
        ctl := ctl.(snd := s.(wnd := g.wnd, wl1 := g.sq, wl2 := g.ack));
      }
    }

    method TakeData(g: Segment, wnd: nat, mem: bool)
      requires Valid() && ctl.rcv.nxt < g.sq + |g.data|
      modifies this`ctl, this`oooBytes, this`rcvLen, rcvbuf
      ensures Valid() && Sorted(old(ctl.rcv.ooo), 0)
      ensures View() == old(View()).(rcv := Spec.TakeData(old(View().rcv), g, wnd, mem))
    {
      hide SndBytes, RcvBytes, Table, Sorted, OooBytes, Spec.OooInsert;
      var r := ctl.rcv;
      if g.sq <= r.nxt {
        TakeInOrder(g.data[r.nxt - g.sq..], mem);
      } else if g.sq < r.nxt + wnd {
        var n := Min(|g.data|, r.nxt + wnd - g.sq);
        OooInsert(g.sq, g.data[..n], mem);
        ctl := ctl.(rcv := ctl.rcv.(oooNewest := g.sq));
      }
    }

    /** Append what fits, park the rest right behind it. */
    method TakeInOrder(data: seq<Byte>, mem: bool)
      requires Valid()
      modifies this`ctl, this`oooBytes, this`rcvLen, rcvbuf
      ensures Valid() && Sorted(old(ctl.rcv.ooo), 0)
      ensures View() == old(View()).(rcv := InOrder(old(View().rcv), data, mem))
    {
      hide SndBytes, RcvBytes, Table, Sorted, OooBytes, Spec.OooInsert;
      var at := ctl.rcv.nxt;
      var n := RcvAppend(data);
      if n < |data| { OooInsert(at + n, data[n..], mem); }
    }

    /** The data part of a segment: when to acknowledge, and how much was new. */
    method DataStage(g: Segment, wnd: nat, mem: bool) returns (when: AckWhen, taken: nat)
      requires Valid() && (g.data != [] ==> ctl.rcv.nxt < g.sq + |g.data|)
      modifies this`ctl, this`oooBytes, this`rcvLen, rcvbuf
      ensures Valid() && Sorted(old(ctl.rcv.ooo), 0)
      ensures DataStep(View(), when, taken) == Spec.DataStage(old(View()), g, wnd, mem)
    {
      hide SndBytes, Table, Sorted, OooBytes, Spec.TakeData, DrainFin, RingView, WhenAck;
      when, taken := Never, 0;
      if g.data == [] { return; }
      when, taken := Now, |g.data|;
      var st := ctl.state;
      if !(st.Established? || st.FinWait1? || st.FinWait2?) { return; }
      var nxt, space := ctl.rcv.nxt, BUF_SIZE - rcvLen;
      RingLen(rcvbuf[..], rcvHead, rcvLen);
      TakeData(g, wnd, mem);
      if g.sq <= nxt {
        taken := |g.data| - (nxt - g.sq);
        OooDrain();
        when := WhenAck(ctl.rcv.ooo != [], g.sq < nxt, space < taken);
      }
    }

    method FinStage(g: Segment) returns (finNow: bool)
      requires Valid()
      modifies this`ctl
      ensures Valid() && View() == Spec.FinStage(old(View()), g)
      ensures finNow == (View().rcv.finRcvd != old(View()).rcv.finRcvd)
    {
      hide SndBytes, RcvBytes, Table, QueueOk;
      if g.fin {
        ctl := ctl.(rcv := ctl.rcv.(hasFin := true, finSeq := g.sq + |g.data|));
      }
      finNow := CheckFin();
    }

    method Reply(finNow: bool, when: AckWhen, taken: nat) returns (out: seq<Segment>)
      requires Valid()
      modifies this`ctl
      ensures Valid() && Step(View(), out) == Spec.Reply(old(View()), finNow, when, taken)
    {
      hide SndBytes, RcvBytes, Table, QueueOk, Spec.SendAck, Spec.AckLater;
      out := [];
      if finNow || when.Now? {
        out := SendAck();
      } else if when.Later? {
        out := AckLater(taken);
      }
    }

    method Absorbed(g: Segment, wnd: nat, mem: bool, room: nat) returns (out: seq<Segment>)
      requires Valid() && (g.data != [] ==> ctl.rcv.nxt < g.sq + |g.data|)
      modifies this`ctl, this`oooBytes, this`rcvLen, rcvbuf
      ensures Valid() && Sorted(old(ctl.rcv.ooo), 0)
      ensures Step(View(), out) == Spec.Absorbed(old(View()), g, wnd, mem, room)
    {
      hide SndBytes, RcvBytes, Table, QueueOk, Sorted, Spec.DataStage, Spec.FinStage, Spec.Reply, Spec.Output;
      var when, taken := DataStage(g, wnd, mem);
      var finNow := FinStage(g);
      out := Reply(finNow, when, taken);
      var more := Output(room);
      out := out + more;
    }

    predicate InWindow(g: Segment)
      requires rcvLen <= BUF_SIZE
      reads this
    {
      var wnd, nxt := BUF_SIZE - rcvLen, ctl.rcv.nxt;
      if g.data == [] then
        if wnd == 0 then g.sq == nxt else nxt <= g.sq < nxt + wnd || g.sq == nxt
      else wnd > 0 && g.sq < nxt + wnd && g.sq + |g.data| - 1 >= nxt
    }

    /** A received segment; a closed block answers for the connection that is gone. */
    method Rx(g: Segment, env: Env) returns (out: seq<Segment>)
      requires Valid()
      modifies this, sndbuf, sacked, rcvbuf
      ensures Valid() && WellFormed(old(View())) && Step(View(), out) == Spec.Rx(old(View()), g, env)
    {
      hide SndBytes, Table, QueueOk, Sorted, RstReply, Spec.SendAck, Spec.SetClosed, Spec.Abort, RingView;
      ViewWellFormed();
      RingLen(rcvbuf[..], rcvHead, rcvLen);
      out := [];
      if ctl.state.Closed? {
        out := RstReply(g);
      } else if !InWindow(g) {
        if !g.rst { out := SendAck(); }
      } else if g.rst {
        SetClosed(ECONNRESET);
      } else if g.syn {
        out := Abort(ECONNRESET);
      } else if !g.isAck {
      } else if g.ack > ctl.snd.nxt {
        out := SendAck();
      } else {
        out := RxAcked(g, env);
      }
    }

    lemma ViewWellFormed()
      requires Valid()
      ensures WellFormed(View())
    {
      RingLen(rcvbuf[..], rcvHead, rcvLen);
    }

    method RxAcked(g: Segment, env: Env) returns (out: seq<Segment>)
      requires Valid() && WellFormed(View()) && !ctl.state.Closed? && SeqAcceptable(View().rcv, g)
      requires !g.rst && !g.syn && g.isAck && g.ack <= ctl.snd.nxt
      modifies this, sndbuf, sacked, rcvbuf
      ensures Valid() && WellFormed(old(View())) && Step(View(), out) == Spec.Rx(old(View()), g, env)
    {
      hide SndBytes, Table, QueueOk, Sorted, Spec.AckStage, Spec.AckedState, Spec.Absorbed, RingView;
      AckStageShape(View(), g, env.room1);
      RingLen(rcvbuf[..], rcvHead, rcvLen);
      var lastAck, wnd := ctl.state.LastAck?, BUF_SIZE - rcvLen;
      out := AckStage(g, env.room1);
      ghost var p1 := View();
      AckedState(g);
      AckedStateShape(p1.(snd := WndUpdate(p1.snd, g)));
      if lastAck && ctl.state.Closed? { return; }
      var more := Absorbed(g, wnd, env.mem, env.room2);
      out := out + more;
    }

    // ---- timers and the socket interface -------------------------------------------------

    method RtoFire(room: nat) returns (out: seq<Segment>)
      requires Valid()
      modifies this`ctl, this`oooBytes
      ensures Valid() && Step(View(), out) == Spec.RtoFire(old(View()), room)
    {
      hide SndBytes, RcvBytes, Table, QueueOk, Spec.Output, Spec.Abort;
      var retries := ctl.snd.retries + 1;
      if retries > MAX_RETRIES {
        ctl := ctl.(snd := ctl.snd.(retries := retries));
        out := Abort(ETIMEDOUT);
      } else {
        ctl := ctl.(snd := ctl.snd.(retries := retries, rtoArmed := false, nxt := ctl.snd.una,
                                    finSent := false, recover := 0));
        out := Output(room);
        ctl := ctl.(snd := ctl.snd.(rtoArmed := true));
      }
    }

    method TimerRetry(due: bool, room: nat) returns (out: seq<Segment>)
      requires Valid()
      modifies this`ctl
      ensures Valid() && Step(View(), out) == Spec.TimerRetry(old(View()), due, room)
    {
      hide SndBytes, RcvBytes, Table, QueueOk, Spec.Output;
      out := [];
      if ctl.snd.retryArmed && due {
        ctl := ctl.(snd := ctl.snd.(retryArmed := false));
        out := Output(room);
      }
    }

    method Timer(due: Due, env: Env) returns (out: seq<Segment>)
      requires Valid()
      modifies this`ctl, this`oooBytes
      ensures Valid() && WellFormed(old(View())) && Step(View(), out) == Spec.Timer(old(View()), due, env)
    {
      hide SndBytes, RcvBytes, Table, QueueOk, Sorted, Spec.SendAck, Spec.TimerRetry, Spec.RtoFire, Spec.SetClosed;
      ViewWellFormed();
      out := [];
      if ctl.state.TimeWait? && due.timeWait {
        SetClosed(NoError);
        return;
      }
      if ctl.rcv.ackPending && ctl.rcv.delackArmed && due.delack { out := SendAck(); }
      assert Step(View(), out) == TimerDelack(old(View()), due.delack);
      var o2 := TimerRetry(due.retry, env.room1);
      out := out + o2;
      ghost var p2 := View();
      var o3 := [];
      if ctl.snd.rtoArmed && due.rto { o3 := RtoFire(env.room2); }
      assert Step(View(), o3) == TimerRto(p2, due.rto, env.room2);
      out := out + o3;
    }

    /** Accept as much as fits; an error is reported instead when nothing can be accepted. */
    method Send(data: seq<Byte>, room: nat) returns (out: seq<Segment>, n: nat, err: Errno)
      requires Valid()
      modifies this`ctl, this`sndLen, sndbuf
      ensures Valid() && WellFormed(old(View()))
      ensures var s := Spec.Send(old(View()), data, room);
              && View() == s.p && out == s.out && n <= |data|
              && (s.IoDone? ==> err.NoError? && s.data == data[..n])
              && (s.IoFail? ==> err == s.err && n == 0)
    {
      hide RcvBytes, Table, QueueOk, Sorted, Spec.Output;
      ViewWellFormed();
      out, n, err := [], 0, NoError;
      if ctl.snd.finQueued { err := EPIPE; return; }
      if !ctl.state.Established? && !ctl.state.CloseWait? {
        err := FirstErr(ctl.err, EPIPE);
        return;
      }
      var space := BUF_SIZE - sndLen;
      if space == 0 { err := EAGAIN; return; }
      n := Min(|data|, space);
      ghost var before := SndBytes();
      CopyInto(sndbuf, sndLen, data[..n]);
      sndLen := sndLen + n;
      assert SndBytes() == before + data[..n];
      out := Output(room);
    }

    /** Read up to `len` bytes; with `peek` they stay. An empty result without an error is EOF. */
    method Recv(len: nat, peek: bool) returns (out: seq<Segment>, data: seq<Byte>, err: Errno)
      requires Valid()
      modifies this`ctl, this`oooBytes, this`rcvLen, this`rcvHead, rcvbuf
      ensures Valid()
      ensures var s := Spec.Recv(old(View()), len, peek);
              && View() == s.p && out == s.out
              && (s.IoDone? ==> err.NoError? && data == s.data)
              && (s.IoFail? ==> err == s.err && data == [])
    {
      hide SndBytes, Table, QueueOk, DrainFin, Spec.CheckFin, Spec.ReadOff, RingView;
      out, data, err := [], [], NoError;
      RingLen(rcvbuf[..], rcvHead, rcvLen);
      if rcvLen == 0 && ctl.rcv.ooo != [] && ctl.rcv.ooo[0].at <= ctl.rcv.nxt {
        OooDrain();
        var _ := CheckFin();
      }
      RingLen(rcvbuf[..], rcvHead, rcvLen);
      if rcvLen == 0 {
        if ctl.rcv.finRcvd { return; }
        if ctl.state.Closed? && !ctl.err.NoError? {
          err := ctl.err;
          if !peek { ctl := ctl.(err := NoError); }
        } else if !ctl.state.Closed? {
          err := EAGAIN;
        }
        return;
      }
      var n := Min(len, rcvLen);
      data := ReadRing(n);
      if !peek { out := ReadOff(n); }
    }

    /** The two memcpy calls of tcp_recv. */
    method ReadRing(n: nat) returns (data: seq<Byte>)
      requires Valid() && n <= rcvLen
      ensures |RcvBytes()| == rcvLen && data == RcvBytes()[..n]
    {
      RingRead(rcvbuf[..], rcvHead, rcvLen, n);
      RingLen(rcvbuf[..], rcvHead, rcvLen);
      var first := Min(BUF_SIZE - rcvHead, n);
      data := rcvbuf[rcvHead..rcvHead + first] + rcvbuf[..n - first];
      assert rcvbuf[..][rcvHead..rcvHead + first] == rcvbuf[rcvHead..rcvHead + first];
      assert rcvbuf[..][..n - first] == rcvbuf[..n - first];
    }

    /** Consume `n` bytes, pull in what now fits, and announce the larger window if it pays. */
    method ReadOff(n: nat) returns (out: seq<Segment>)
      requires Valid() && n <= rcvLen
      modifies this`ctl, this`oooBytes, this`rcvLen, this`rcvHead, rcvbuf
      ensures Valid() && n <= |old(View()).rcv.buf|
      ensures Step(View(), out) == Spec.ReadOff(old(View()), n)
    {
      hide SndBytes, Table, RcvBytes, QueueOk, DrainFin, Spec.SendAck, WantsWndUpdate, Spec.CheckFin;
      SkipRead(n);
      OooDrain();
      ghost var p1 := View();
      var finNow := CheckFin();
      CheckFinFlag(p1);
      out := WindowUpdate(finNow);
    }

    method SkipRead(n: nat)
      requires Valid() && n <= rcvLen
      modifies this`rcvLen, this`rcvHead
      ensures Valid() && n <= |old(View()).rcv.buf|
      ensures View() == old(View()).(rcv := old(View().rcv).(buf := old(View().rcv.buf)[n..]))
    {
      hide SndBytes, Table, QueueOk, RingView;
      RingRead(rcvbuf[..], rcvHead, rcvLen, n);
      RingLen(rcvbuf[..], rcvHead, rcvLen);
      rcvHead := (rcvHead + n) % BUF_SIZE;
      rcvLen := rcvLen - n;
    }

    method WindowUpdate(finNow: bool) returns (out: seq<Segment>)
      requires Valid()
      modifies this`ctl
      ensures Valid()
      ensures Step(View(), out) == if !old(View()).state.Closed? && (finNow || WantsWndUpdate(old(View())))
                                   then Spec.SendAck(old(View())) else Step(old(View()), [])
    {
      hide SndBytes, Table, QueueOk, Spec.SendAck, RingView;
      RingLen(rcvbuf[..], rcvHead, rcvLen);
      var cur := Min(BUF_SIZE - rcvLen, WND_MAX);
      var adv := ctl.rcv.wndAdv;
      out := [];
      if !ctl.state.Closed? &&
         (finNow || (cur > adv && (cur - adv >= ctl.snd.mss || cur - adv >= cur / 2))) {
        out := SendAck();
      }
    }

    method ShutdownWr(room: nat) returns (out: seq<Segment>)
      requires Valid()
      modifies this`ctl
      ensures Valid() && WellFormed(old(View())) && Step(View(), out) == Spec.ShutdownWr(old(View()), room)
    {
      hide SndBytes, RcvBytes, Table, QueueOk, Sorted, Spec.Output;
      ViewWellFormed();
      out := [];
      if ctl.snd.finQueued { return; }
      if ctl.state.Established? {
        ctl := ctl.(state := FinWait1, snd := ctl.snd.(finQueued := true));
        out := Output(room);
      } else if ctl.state.CloseWait? {
        ctl := ctl.(state := LastAck, snd := ctl.snd.(finQueued := true));
        out := Output(room);
      }
    }

    method Close(room: nat) returns (out: seq<Segment>)
      requires Valid()
      modifies this`ctl, this`oooBytes
      ensures Valid() && WellFormed(old(View())) && Step(View(), out) == Spec.Close(old(View()), room)
    {
      hide SndBytes, Table, QueueOk, Sorted, Spec.ShutdownWr, Spec.Abort, RingView;
      ViewWellFormed();
      RingLen(rcvbuf[..], rcvHead, rcvLen);
      out := [];
      if ctl.state.Established? || ctl.state.CloseWait? {
        if rcvLen != 0 { out := Abort(NoError); } else { out := ShutdownWr(room); }
      }
    }
  }

  lemma CheckFinFlag(p: Spec.Pcb)
    ensures FinReady(p.rcv) == (Spec.CheckFin(p).rcv.finRcvd != p.rcv.finRcvd)
  {
  }

  lemma AckedStateShape(p: Spec.Pcb)
    ensures var q := Spec.AckedState(p);
            q.rcv.nxt == p.rcv.nxt && q.rcv.buf == p.rcv.buf && (q.rcv.ooo == p.rcv.ooo || q.rcv.ooo == [])
  {
  }

  // ---- helper facts about the specification --------------------------------------------

  lemma EmptyQueue()
    ensures QueueOk([], 0)
  {
  }

  lemma AbsorbTurn(t: seq<Range>, k: nat, a: nat, e: nat)
    requires k < |t| && FirstTouch(t, k, a, e) == FirstTouch(t, 0, a, e)
    ensures if Touches(t[k], a, e)
            then Absorb(t, a, e) == Absorb(SwapRemove(t, k), LowStart(t[k], a), HighEnd(t[k], e))
            else FirstTouch(t, k + 1, a, e) == FirstTouch(t, 0, a, e)
  {
  }

  lemma AbsorbEnd(t: seq<Range>, a: nat, e: nat)
    requires FirstTouch(t, |t|, a, e) == FirstTouch(t, 0, a, e)
    ensures Absorb(t, a, e) == if |t| < MAX_SACK then t + [Range(a, e)] else t
  {
  }

  lemma HeadTakenKeepsQueue(r: Rcv)
    requires DrainReady(r)
    ensures HeadTaken(r).ooo == r.ooo && r.nxt <= HeadTaken(r).nxt
  {
  }

  lemma HeadDroppedLength(r: Rcv)
    requires DrainReady(r)
    ensures r.ooo[0].End() <= r.nxt <==> |HeadDropped(r)| < |r.ooo|
  {
  }

  lemma DroppedQueueOk(r: Rcv, n: nat)
    requires DrainReady(r) && QueueOk(r.ooo, n)
    ensures var o := r.ooo[0];
            var cut := if r.nxt < o.End() then r.nxt - o.at else |o.data|;
            cut <= n && QueueOk(HeadDropped(r), n - cut)
  {
    var o := r.ooo[0];
    SortedWeaken(r.ooo[1..], o.End(), 0);
    if r.nxt < o.End() {
      var q := [Chunk(r.nxt, o.data[r.nxt - o.at..])] + r.ooo[1..];
      assert q[1..] == r.ooo[1..];
    }
  }

  lemma {:induction false} BlocksOfSnoc(ooo: seq<Chunk>, c: Chunk, newest: nat, want: bool)
    ensures BlocksOf(ooo + [c], newest, want)
         == BlocksOf(ooo, newest, want) + (if Holds(c, newest) == want then [Range(c.at, c.End())] else [])
  {
    if ooo == [] {
    } else {
      assert (ooo + [c])[1..] == ooo[1..] + [c];
      BlocksOfSnoc(ooo[1..], c, newest, want);
    }
  }

  lemma {:induction false} BlocksOfPrefix(ooo: seq<Chunk>, x: nat, newest: nat, want: bool)
    requires x <= |ooo|
    ensures BlocksOf(ooo[..x], newest, want) <= BlocksOf(ooo, newest, want)
  {
    if x > 0 {
      BlocksOfPrefix(ooo[1..], x - 1, newest, want);
      assert ooo[..x][1..] == ooo[1..][..x - 1];
    }
  }

  lemma {:induction false} InsertedBytes(ooo: seq<Chunk>, i: nat, c: Chunk)
    requires i <= |ooo|
    ensures OooBytes(ooo[..i] + [c] + ooo[i..]) == OooBytes(ooo) + |c.data|
  {
    var u := ooo[..i] + [c] + ooo[i..];
    if i == 0 {
      assert u[1..] == ooo;
    } else {
      assert u[1..] == ooo[1..][..i - 1] + [c] + ooo[1..][i - 1..];
      InsertedBytes(ooo[1..], i - 1, c);
    }
  }

  /** Parking keeps the queue sorted whatever the bytes are. */
  lemma InsertSorted(ooo: seq<Chunk>, at: nat, data: seq<Byte>, held: nat, mem: bool)
    requires Sorted(ooo, 0)
    ensures Sorted(Spec.OooInsert(ooo, at, data, held, mem), 0)
  {
    hide PlaceAt, Sorted;
    var i := FirstAfter(ooo, at);
    if i < |ooo| && ooo[i].at <= at {
      var covered := ooo[i].End() - at;
      if covered < |data| {
        if i + 1 < |ooo| { SortedPair(ooo, 0, i); }
        PlaceSorted(ooo, i + 1, at + covered, data[covered..], held, mem);
      }
    } else {
      PlaceSorted(ooo, i, at, data, held, mem);
    }
  }

  lemma PlaceSorted(ooo: seq<Chunk>, i: nat, at: nat, data: seq<Byte>, held: nat, mem: bool)
    requires Sorted(ooo, 0) && i <= |ooo| && (i < |ooo| ==> at <= ooo[i].at)
    requires i > 0 ==> ooo[i - 1].End() <= at
    ensures Sorted(PlaceAt(ooo, i, at, data, held, mem), 0)
  {
    SortedSplit(ooo, 0, i, if i == 0 then 0 else ooo[i - 1].End());
    SortedJoin(ooo, 0, i, OooPlace(ooo[i..], at, data, held, mem));
  }
}
