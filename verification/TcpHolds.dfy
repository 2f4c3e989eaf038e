/** Which bytes an endpoint holds after a segment with data (kernel/net/tcp.c:37-147, 741-776): in-order bytes
    as far as there is room, others in the gap they fall into, and none that it held is dropped. */
module TcpHolds {
  import opened TcpSpec
  import opened TcpInvariant
  import opened TcpEndpoint
  import opened TcpArrival

  ghost predicate Parked(ooo: seq<Chunk>, q: nat) { exists c :: c in ooo && Holds(c, q) }

  // ---- parking -------------------------------------------------------------------------------------

  /** The gap that bytes [at, at + n) are parked in: from `at`, or from the end of the chunk that holds it, to the
      next chunk or the end of the bytes. */
  ghost predicate IsGap(ooo: seq<Chunk>, at: nat, n: nat, from: nat, to: nat) {
    && at <= from <= to <= at + n
    && (if Parked(ooo, at) then exists c :: c in ooo && Holds(c, at) && from == Min(c.End(), at + n) else from == at)
    && (forall q: nat :: from <= q < to ==> !Parked(ooo, q))
    && (to == at + n || exists c :: c in ooo && c.at == to)
  }

  /** Parking adds exactly the bytes of that gap, if there is memory and the queue is not too long. */
  lemma ParksGap(ooo: seq<Chunk>, at: nat, data: seq<Byte>, held: nat, mem: bool) returns (from: nat, to: nat)
    requires Sorted(ooo, 0)
    ensures IsGap(ooo, at, |data|, from, to)
    ensures forall q: nat :: Parked(OooInsert(ooo, at, data, held, mem), q) <==>
              Parked(ooo, q) || (from <= q < to && mem && held + (to - from) <= 131072)
  {
    var i := FirstAfter(ooo, at);
    if i < |ooo| && ooo[i].at <= at {
      from, to := ParksBehind(ooo, i, at, data, held, mem);
    } else {
      assert OooInsert(ooo, at, data, held, mem) == PlaceAt(ooo, i, at, data, held, mem);
      hide OooInsert, PlaceAt, Sorted, FirstAfter, Parked;
      from := at;
      NotParked(ooo, 0, i, at);
      to := PlaceGap(ooo, i, from, data, held, mem);
    }
  }

  lemma ParksBehind(ooo: seq<Chunk>, i: nat, at: nat, data: seq<Byte>, held: nat, mem: bool)
    returns (from: nat, to: nat)
    requires Sorted(ooo, 0) && i == FirstAfter(ooo, at) < |ooo| && ooo[i].at <= at
    ensures IsGap(ooo, at, |data|, from, to)
    ensures forall q: nat :: Parked(OooInsert(ooo, at, data, held, mem), q) <==>
              Parked(ooo, q) || (from <= q < to && mem && held + (to - from) <= 131072)
  {
    hide OooInsert, PlaceAt, Sorted;
    var covered := ooo[i].End() - at;
    if i + 1 < |ooo| { SortedPair(ooo, 0, i); }
    InsertBehind(ooo, i, at, data, held, mem);
    hide FirstAfter;
    assert ooo[i] in ooo && Holds(ooo[i], at) && Parked(ooo, at);
    if covered >= |data| {
      from, to := at + |data|, at + |data|;
    } else {
      from := at + covered;
      to := PlaceGap(ooo, i + 1, from, data[covered..], held, mem);
      hide Parked;
      assert from == Min(ooo[i].End(), at + |data|);
    }
  }

  lemma InsertBehind(ooo: seq<Chunk>, i: nat, at: nat, data: seq<Byte>, held: nat, mem: bool)
    requires Sorted(ooo, 0) && i == FirstAfter(ooo, at) < |ooo| && ooo[i].at <= at
    requires i + 1 < |ooo| ==> ooo[i].End() <= ooo[i + 1].at
    ensures var covered := ooo[i].End() - at;
            OooInsert(ooo, at, data, held, mem) ==
            if covered >= |data| then ooo else PlaceAt(ooo, i + 1, at + covered, data[covered..], held, mem)
  {
    hide PlaceAt, FirstAfter, Sorted;
  }

  /** Nothing before index `i` reaches `at`, and nothing from it on begins before. */
  lemma {:induction false} NotParked(ooo: seq<Chunk>, lo: nat, i: nat, at: nat)
    requires Sorted(ooo, lo) && i <= |ooo| && (i < |ooo| ==> at < ooo[i].at) && (i > 0 ==> ooo[i - 1].End() <= at)
    ensures !Parked(ooo, at)
  {
    forall c | c in ooo ensures !Holds(c, at) {
      var k :| 0 <= k < |ooo| && ooo[k] == c;
      if k < i { SortedApart(ooo, lo, k, i - 1); } else { SortedApart(ooo, lo, i, k); }
    }
  }

  lemma {:induction false} SortedApart(ooo: seq<Chunk>, lo: nat, i: nat, j: nat)
    requires Sorted(ooo, lo) && i <= j < |ooo|
    ensures ooo[i].at <= ooo[j].at && ooo[i].End() <= ooo[j].End() && (i < j ==> ooo[i].End() <= ooo[j].at)
    ensures lo <= ooo[i].at && ooo[i].data != []
  {
    if i > 0 {
      SortedApart(ooo[1..], ooo[0].End(), i - 1, j - 1);
    } else if j > 0 {
      SortedApart(ooo[1..], ooo[0].End(), 0, j - 1);
    }
  }

  lemma PlaceGap(ooo: seq<Chunk>, i: nat, at: nat, data: seq<Byte>, held: nat, mem: bool) returns (to: nat)
    requires Sorted(ooo, 0) && i <= |ooo| && (i < |ooo| ==> at <= ooo[i].at) && (i > 0 ==> ooo[i - 1].End() <= at)
    ensures at <= to <= at + |data| && (to == at + |data| || exists c :: c in ooo && c.at == to)
    ensures forall q: nat :: at <= q < to ==> !Parked(ooo, q)
    ensures forall q: nat :: Parked(PlaceAt(ooo, i, at, data, held, mem), q) <==>
              Parked(ooo, q) || (at <= q < to && mem && held + (to - at) <= 131072)
  {
    hide PlaceAt, Sorted, Parked;
    to := if i < |ooo| && ooo[i].at < at + |data| then ooo[i].at else at + |data|;
    if i < |ooo| { assert ooo[i] in ooo; }
    forall q: nat | at <= q < to ensures !Parked(ooo, q) { NotParked(ooo, 0, i, q); }
    PlaceIs(ooo, i, at, data, to, held, mem);
    if to > at && mem && held + (to - at) <= 131072 { OneMoreChunk(ooo, i, Chunk(at, data[..to - at])); }
  }

  lemma OneMoreChunk(ooo: seq<Chunk>, i: nat, d: Chunk)
    requires i <= |ooo|
    ensures forall q: nat :: Parked(ooo[..i] + ([d] + ooo[i..]), q) <==> Parked(ooo, q) || Holds(d, q)
  {
    var u := ooo[..i] + ([d] + ooo[i..]);
    assert ooo == ooo[..i] + ooo[i..];
    assert forall c :: c in u <==> c in ooo || c == d;
  }

  lemma PlaceIs(ooo: seq<Chunk>, i: nat, at: nat, data: seq<Byte>, to: nat, held: nat, mem: bool)
    requires i <= |ooo| && (i < |ooo| ==> at <= ooo[i].at)
    requires to == if i < |ooo| && ooo[i].at < at + |data| then ooo[i].at else at + |data|
    ensures PlaceAt(ooo, i, at, data, held, mem) ==
            if to > at && mem && held + (to - at) <= 131072 then ooo[..i] + ([Chunk(at, data[..to - at])] + ooo[i..])
            else ooo
  {
    var rest := ooo[i..];
    assert rest != [] ==> rest[0] == ooo[i];
    PlacedIs(rest, at, data, to, held, mem);
    hide OooPlace;
    assert ooo == ooo[..i] + rest;
  }

  lemma PlacedIs(rest: seq<Chunk>, at: nat, data: seq<Byte>, to: nat, held: nat, mem: bool)
    requires rest != [] ==> at <= rest[0].at
    requires to == if rest != [] && rest[0].at < at + |data| then rest[0].at else at + |data|
    ensures OooPlace(rest, at, data, held, mem) ==
            if to > at && mem && held + (to - at) <= 131072 then [Chunk(at, data[..to - at])] + rest else rest
  {
    assert data[..|data|] == data;
  }

  // ---- draining ------------------------------------------------------------------------------------

  /** Draining moves bytes from the queue to the buffer: what is held stays the same. */
  lemma {:induction false} DrainHolds(r: Rcv)
    requires Sorted(r.ooo, 0)
    ensures forall q: nat :: Held(Drain(r), q) <==> Held(r, q)
    decreases |r.ooo|
  {
    if DrainReady(r) {
      StepHolds(r);
      var d := DrainStep(r);
      if |d.ooo| < |r.ooo| {
        SortedWeaken(r.ooo[1..], r.ooo[0].End(), 0);
        hide Held, DrainStep;
        DrainHolds(d);
      }
    }
  }

  lemma StepHolds(r: Rcv)
    requires DrainReady(r)
    ensures forall q: nat :: Held(DrainStep(r), q) <==> Held(r, q)
  {
    StepIs(r);
    var o, d, tail := r.ooo[0], DrainStep(r), r.ooo[1..];
    hide DrainStep;
    FrontChunk(r.ooo);
    if d.nxt < o.End() { FrontChunk(d.ooo); }
    forall q: nat ensures Held(d, q) <==> Held(r, q) {
      HeldIs(r, q);
      HeldIs(d, q);
      hide Held, Parked;
    }
  }

  lemma HeldIs(r: Rcv, q: nat)
    ensures Held(r, q) <==> q < r.nxt || Parked(r.ooo, q)
  {
  }

  lemma FrontChunk(ooo: seq<Chunk>)
    requires ooo != []
    ensures forall q: nat :: Parked(ooo, q) <==> Holds(ooo[0], q) || Parked(ooo[1..], q)
  {
    assert forall c :: c in ooo <==> c == ooo[0] || c in ooo[1..];
  }

  lemma StepIs(r: Rcv)
    requires DrainReady(r)
    ensures var o, d := r.ooo[0], DrainStep(r);
            && r.nxt <= d.nxt && (d.nxt <= o.End() || d.nxt == r.nxt)
            && |d.buf| == |r.buf| + (d.nxt - r.nxt)
            && (d.nxt < o.End() ==> RcvSpace(d) == 0)
            && d.ooo == if d.nxt < o.End() then [Chunk(d.nxt, o.data[d.nxt - o.at..])] + r.ooo[1..] else r.ooo[1..]
  {
  }

  /** And it goes as far as it can: until the buffer is full or the next byte is not there. */
  lemma {:induction false} DrainFar(r: Rcv)
    requires Sorted(r.ooo, 0)
    ensures var d := Drain(r);
            && r.nxt <= d.nxt && |d.buf| == |r.buf| + (d.nxt - r.nxt)
            && (RcvSpace(d) == 0 || d.ooo == [] || d.ooo[0].at > d.nxt)
    decreases |r.ooo|
  {
    if DrainReady(r) {
      StepIs(r);
      var d := DrainStep(r);
      hide DrainStep;
      if |d.ooo| < |r.ooo| {
        SortedWeaken(r.ooo[1..], r.ooo[0].End(), 0);
        DrainFar(d);
      }
    }
  }

  // ---- a segment with data -------------------------------------------------------------------------

  /** How far the in-order bytes of a segment go, and where the rest of it, or all of it behind a hole, is to be
      parked: in the `n` bytes from `at` on. */
  datatype Intake = Intake(upTo: nat, at: nat, n: nat)

  function IntakeOf(r: Rcv, g: Segment): Intake {
    var end, edge := g.sq + |g.data|, r.nxt + Space(r);
    if g.sq <= r.nxt then
      var upTo := Min(end, edge);
      Intake(upTo, upTo, end - upTo)
    else Intake(r.nxt, g.sq, if g.sq < edge then Min(end, edge) - g.sq else 0)
  }

  /** `q` is held in `r'` exactly if it was in `r`, or is one of the bytes taken in order or parked in the gap
      [from, to), given memory for them and a queue that stays within its limit. */
  ghost predicate HoldsAfter(r: Rcv, i: Intake, from: nat, to: nat, mem: bool, r': Rcv, q: nat) {
    Held(r', q) <==>
      Held(r, q) || q < i.upTo || (from <= q < to && mem && OooBytes(r.ooo) + (to - from) <= 131072)
  }

  lemma TakeHolds(r: Rcv, g: Segment, mem: bool) returns (from: nat, to: nat)
    requires Sorted(r.ooo, 0) && r.nxt < g.sq + |g.data|
    ensures var i := IntakeOf(r, g);
            && IsGap(r.ooo, i.at, i.n, from, to)
            && forall q: nat :: HoldsAfter(r, i, from, to, mem, TakeData(r, g, Space(r), mem), q)
    ensures Sorted(TakeData(r, g, Space(r), mem).ooo, 0)
  {
    if g.sq <= r.nxt {
      from, to := InOrderHolds(r, g, mem);
    } else {
      from, to := HoleHolds(r, g, mem);
    }
  }

  /** What the in-order branch computes. */
  lemma InOrderIs(r: Rcv, g: Segment, mem: bool)
    requires Sorted(r.ooo, 0) && g.sq <= r.nxt < g.sq + |g.data|
    ensures var i, data, t := IntakeOf(r, g), Fresh(r, g), TakeData(r, g, Space(r), mem);
            && |data| == g.sq + |g.data| - r.nxt && r.nxt <= i.upTo <= r.nxt + |data|
            && t == r.(nxt := i.upTo, buf := t.buf, ooo := t.ooo)
            && t.ooo == if i.n > 0 then OooInsert(r.ooo, i.at, data[i.upTo - r.nxt..], OooBytes(r.ooo), mem) else r.ooo
  {
    hide OooInsert, OooBytes, Sorted;
  }

  /** And the other. */
  lemma BehindIs(r: Rcv, g: Segment, mem: bool)
    requires Sorted(r.ooo, 0) && r.nxt < g.sq
    ensures var i, t := IntakeOf(r, g), TakeData(r, g, Space(r), mem);
            && i.n <= |g.data| && t == r.(ooo := t.ooo, oooNewest := t.oooNewest)
            && t.ooo ==
               if g.sq < r.nxt + Space(r) then OooInsert(r.ooo, i.at, g.data[..i.n], OooBytes(r.ooo), mem) else r.ooo
  {
    hide OooInsert, OooBytes, Sorted, Fresh;
  }

  lemma InOrderHolds(r: Rcv, g: Segment, mem: bool) returns (from: nat, to: nat)
    requires Sorted(r.ooo, 0) && g.sq <= r.nxt < g.sq + |g.data|
    ensures var i := IntakeOf(r, g);
            && IsGap(r.ooo, i.at, i.n, from, to)
            && forall q: nat :: HoldsAfter(r, i, from, to, mem, TakeData(r, g, Space(r), mem), q)
    ensures Sorted(TakeData(r, g, Space(r), mem).ooo, 0)
  {
    hide TakeData, Sorted, OooInsert, Fresh, OooBytes, Held, Parked, IsGap;
    InOrderIs(r, g, mem);
    var i, t, data := IntakeOf(r, g), TakeData(r, g, Space(r), mem), Fresh(r, g);
    if i.n > 0 {
      from, to := ParksGap(r.ooo, i.at, data[i.upTo - r.nxt..], OooBytes(r.ooo), mem);
      InsertSorted(r.ooo, i.at, data[i.upTo - r.nxt..], OooBytes(r.ooo), mem);
    } else {
      from, to := i.at, i.at;
      EmptyGap(r.ooo, i.at);
    }
    forall q: nat ensures HoldsAfter(r, i, from, to, mem, t, q) {
      HeldIs(r, q);
      HeldIs(t, q);
    }
  }

  lemma HoleHolds(r: Rcv, g: Segment, mem: bool) returns (from: nat, to: nat)
    requires Sorted(r.ooo, 0) && r.nxt < g.sq
    ensures var i := IntakeOf(r, g);
            && IsGap(r.ooo, i.at, i.n, from, to)
            && forall q: nat :: HoldsAfter(r, i, from, to, mem, TakeData(r, g, Space(r), mem), q)
    ensures Sorted(TakeData(r, g, Space(r), mem).ooo, 0)
  {
    hide TakeData, Sorted, OooInsert, Fresh, OooBytes, Held, Parked, IsGap;
    BehindIs(r, g, mem);
    var i, t := IntakeOf(r, g), TakeData(r, g, Space(r), mem);
    if g.sq < r.nxt + Space(r) {
      from, to := ParksGap(r.ooo, i.at, g.data[..i.n], OooBytes(r.ooo), mem);
      InsertSorted(r.ooo, i.at, g.data[..i.n], OooBytes(r.ooo), mem);
    } else {
      from, to := i.at, i.at;
      EmptyGap(r.ooo, i.at);
    }
    forall q: nat ensures HoldsAfter(r, i, from, to, mem, t, q) {
      HeldIs(r, q);
      HeldIs(t, q);
    }
  }

  lemma EmptyGap(ooo: seq<Chunk>, at: nat)
    ensures IsGap(ooo, at, 0, at, at)
  {
    if c :| c in ooo && Holds(c, at) { assert Min(c.End(), at) == at; }
  }

  lemma InsertSorted(ooo: seq<Chunk>, at: nat, data: seq<Byte>, held: nat, mem: bool)
    requires Sorted(ooo, 0)
    ensures Sorted(OooInsert(ooo, at, data, held, mem), 0)
  {
    hide Sorted, PlaceAt;
    var i := FirstAfter(ooo, at);
    if i < |ooo| && ooo[i].at <= at {
      if i + 1 < |ooo| { SortedPair(ooo, 0, i); }
      InsertBehind(ooo, i, at, data, held, mem);
      var covered := ooo[i].End() - at;
      hide OooInsert, FirstAfter, PlaceAt, Sorted;
      if covered < |data| { PlaceSorted(ooo, i + 1, at + covered, data[covered..], held, mem); }
    } else {
      assert OooInsert(ooo, at, data, held, mem) == PlaceAt(ooo, i, at, data, held, mem);
      hide OooInsert, FirstAfter, PlaceAt, Sorted;
      PlaceSorted(ooo, i, at, data, held, mem);
    }
  }

  lemma PlaceSorted(ooo: seq<Chunk>, i: nat, at: nat, data: seq<Byte>, held: nat, mem: bool)
    requires Sorted(ooo, 0) && i <= |ooo| && (i < |ooo| ==> at <= ooo[i].at) && (i > 0 ==> ooo[i - 1].End() <= at)
    ensures Sorted(PlaceAt(ooo, i, at, data, held, mem), 0)
  {
    var to := if i < |ooo| && ooo[i].at < at + |data| then ooo[i].at else at + |data|;
    PlaceIs(ooo, i, at, data, to, held, mem);
    var lo := if i == 0 then 0 else ooo[i - 1].End();
    SortedSplit(ooo, 0, i, lo);
    if to > at && mem && held + (to - at) <= 131072 {
      var rest := [Chunk(at, data[..to - at])] + ooo[i..];
      assert rest[1..] == ooo[i..];
      assert Sorted(ooo[i..], to) by { if i < |ooo| { assert ooo[i..][0] == ooo[i]; } }
      hide PlaceAt;
      SortedJoin(ooo, 0, i, rest);
    }
  }

  // ---- the whole segment ---------------------------------------------------------------------------

  /** Where the FIN of the peer sits, if it is known. */
  function FinAt(r: Rcv, g: Segment): nat { if g.fin then g.sq + |g.data| else r.finSeq }

  predicate FinKnown(r: Rcv, g: Segment) { r.hasFin || g.fin }

  /** The peer's FIN is taken now. */
  predicate FinNow(r: Rcv, r': Rcv) { r'.finRcvd && !r.finRcvd }

  /** What is received in order, without the FIN. */
  function DataEnd(r: Rcv, r': Rcv): nat { if FinNow(r, r') && r'.nxt > 0 then r'.nxt - 1 else r'.nxt }

  lemma CheckFinIs(p: Pcb)
    ensures var q := CheckFin(p);
            && q.rcv.buf == p.rcv.buf && q.rcv.ooo == p.rcv.ooo && q.rcv.hasFin == p.rcv.hasFin
            && q.rcv.finSeq == p.rcv.finSeq
            && (FinNow(p.rcv, q.rcv) <==> p.rcv.hasFin && p.rcv.nxt == p.rcv.finSeq && !p.rcv.finRcvd)
            && (p.rcv.finRcvd ==> q.rcv.finRcvd) && q.rcv.nxt == p.rcv.nxt + (if FinNow(p.rcv, q.rcv) then 1 else 0)
  {
  }

  /** What pulling parked bytes in and looking for the FIN leave of `r`, which has not had the FIN. */
  ghost predicate Pulled(r: Rcv, d: Rcv) {
    && d.hasFin == r.hasFin && d.finSeq == r.finSeq
    && (FinNow(r, d) <==> d.hasFin && DataEnd(r, d) == d.finSeq) && (FinNow(r, d) ==> d.nxt == DataEnd(r, d) + 1)
    && (forall q: nat :: Held(d.(nxt := DataEnd(r, d)), q) <==> Held(r, q))
    && (Space(d) == 0 || !Parked(d.ooo, DataEnd(r, d)))
  }

  lemma DrainFinIs(p: Pcb)
    requires Sorted(p.rcv.ooo, 0) && !p.rcv.finRcvd
    ensures Pulled(p.rcv, DrainFin(p).rcv)
  {
    var r := p.rcv;
    hide Drain, Sorted, Held, Parked, CheckFin;
    DrainHolds(r);
    DrainFar(r);
    DrainKeeps(r);
    var e := Drain(r);
    CheckFinIs(p.(rcv := e));
    var d := DrainFin(p).rcv;
    if e.ooo == [] || e.ooo[0].at > e.nxt { NextMissing(e); }
    forall q: nat ensures Held(d.(nxt := DataEnd(r, d)), q) <==> Held(r, q) {
      HeldSame(e, d.(nxt := DataEnd(r, d)), q);
    }
  }

  /** What is stored of a segment's data, if the connection takes any. */
  ghost predicate Stored(r: Rcv, g: Segment, mem: bool, d: Rcv, from: nat, to: nat) {
    && IsGap(r.ooo, IntakeOf(r, g).at, IntakeOf(r, g).n, from, to)
    && (forall q: nat :: HoldsAfter(r, IntakeOf(r, g), from, to, mem, d.(nxt := DataEnd(r, d)), q))
    && (g.sq <= r.nxt ==> Space(d) == 0 || !Parked(d.ooo, DataEnd(r, d)))
  }

  /** In order: also what was parked behind is pulled in, and the FIN if it is next. */
  lemma StoredInOrder(p: Pcb, g: Segment, mem: bool) returns (from: nat, to: nat)
    requires Sorted(p.rcv.ooo, 0) && g.sq <= p.rcv.nxt < g.sq + |g.data| && TakesData(p.state) && !p.rcv.finRcvd
    ensures var d := DataStage(p, g, Space(p.rcv), mem).p.rcv;
            && Stored(p.rcv, g, mem, d, from, to) && d.hasFin == p.rcv.hasFin && d.finSeq == p.rcv.finSeq
            && (FinNow(p.rcv, d) <==> d.hasFin && DataEnd(p.rcv, d) == d.finSeq)
            && (FinNow(p.rcv, d) ==> d.nxt == DataEnd(p.rcv, d) + 1)
  {
    var r := TakeData(p.rcv, g, Space(p.rcv), mem);
    var p1 := p.(rcv := r);
    hide TakeData, DataStage, DrainFin, Sorted, Held, IsGap, Parked, OooBytes;
    from, to := TakeHolds(p.rcv, g, mem);
    TakeKeeps(p.rcv, g, mem);
    DataInOrderIs(p, g, mem);
    DrainFinIs(p1);
    var d := DrainFin(p1).rcv;
    forall q: nat ensures HoldsAfter(p.rcv, IntakeOf(p.rcv, g), from, to, mem, d.(nxt := DataEnd(p.rcv, d)), q) {
      assert HoldsAfter(p.rcv, IntakeOf(p.rcv, g), from, to, mem, r, q);
    }
  }

  lemma DataInOrderIs(p: Pcb, g: Segment, mem: bool)
    requires Sorted(p.rcv.ooo, 0) && g.sq <= p.rcv.nxt < g.sq + |g.data| && TakesData(p.state)
    ensures DataStage(p, g, Space(p.rcv), mem).p == DrainFin(p.(rcv := TakeData(p.rcv, g, Space(p.rcv), mem)))
  {
    hide TakeData, DrainFin, Sorted;
  }

  /** Behind a hole: it is only parked. */
  lemma StoredBehind(p: Pcb, g: Segment, mem: bool) returns (from: nat, to: nat)
    requires Sorted(p.rcv.ooo, 0) && p.rcv.nxt < g.sq && g.data != [] && TakesData(p.state) && !p.rcv.finRcvd
    ensures var d := DataStage(p, g, Space(p.rcv), mem).p.rcv;
            && Stored(p.rcv, g, mem, d, from, to) && d.hasFin == p.rcv.hasFin && d.finSeq == p.rcv.finSeq
            && !d.finRcvd && d.nxt == p.rcv.nxt
  {
    var r := TakeData(p.rcv, g, Space(p.rcv), mem);
    assert DataStage(p, g, Space(p.rcv), mem).p == p.(rcv := r) by { hide TakeData, DrainFin; }
    hide TakeData, DataStage, DrainFin, Sorted, Held, IsGap, Parked, OooBytes;
    from, to := TakeHolds(p.rcv, g, mem);
    TakeKeeps(p.rcv, g, mem);
    assert r.(nxt := r.nxt) == r;
  }

  lemma HeldSame(r: Rcv, r': Rcv, q: nat)
    requires r'.nxt == r.nxt && r'.ooo == r.ooo
    ensures Held(r', q) <==> Held(r, q)
  {
  }

  lemma NextMissing(r: Rcv)
    requires Sorted(r.ooo, 0) && (r.ooo == [] || r.ooo[0].at > r.nxt)
    ensures !Parked(r.ooo, r.nxt)
  {
    if r.ooo != [] { NotParked(r.ooo, 0, 0, r.nxt); }
  }

  lemma TakeKeeps(r: Rcv, g: Segment, mem: bool)
    requires Sorted(r.ooo, 0) && r.nxt < g.sq + |g.data|
    ensures var t := TakeData(r, g, Space(r), mem);
            t.hasFin == r.hasFin && t.finSeq == r.finSeq && t.finRcvd == r.finRcvd && (g.sq > r.nxt ==> t.nxt == r.nxt)
  {
    hide TakeData, OooInsert, Fresh, OooBytes, Sorted;
    if g.sq <= r.nxt { InOrderIs(r, g, mem); } else { BehindIs(r, g, mem); }
  }

  lemma {:induction false} DrainKeeps(r: Rcv)
    requires Sorted(r.ooo, 0)
    ensures var d := Drain(r);
            d.hasFin == r.hasFin && d.finSeq == r.finSeq && d.finRcvd == r.finRcvd && Sorted(d.ooo, 0)
    decreases |r.ooo|
  {
    if DrainReady(r) {
      var d := DrainStep(r);
      assert d.hasFin == r.hasFin && d.finSeq == r.finSeq && d.finRcvd == r.finRcvd;
      StepIs(r);
      if |d.ooo| < |r.ooo| {
        SortedWeaken(r.ooo[1..], r.ooo[0].End(), 0);
        hide DrainStep;
        DrainKeeps(d);
      } else {
        assert d.ooo[1..] == r.ooo[1..];
      }
    }
  }

  /** What becomes of the receiving half after the data, by the FIN of the segment or one known before. */
  lemma FinStageIs(r0: Rcv, p: Pcb, g: Segment)
    requires r0.hasFin == p.rcv.hasFin && r0.finSeq == p.rcv.finSeq && !r0.finRcvd
    requires r0.hasFin && g.fin ==> r0.finSeq == g.sq + |g.data|
    requires FinNow(r0, p.rcv) ==> r0.hasFin && p.rcv.nxt > 0 && DataEnd(r0, p.rcv) == r0.finSeq
    ensures var q := FinStage(p, g).rcv;
            && q.buf == p.rcv.buf && q.ooo == p.rcv.ooo && DataEnd(r0, q) == DataEnd(r0, p.rcv)
            && (FinNow(r0, q) <==> FinKnown(r0, g) && DataEnd(r0, q) == FinAt(r0, g))
  {
    CheckFinIs(if g.fin then p.(rcv := p.rcv.(hasFin := true, finSeq := g.sq + |g.data|)) else p);
    hide CheckFin;
  }

  lemma AbsorbedIs(p: Pcb, g: Segment, wnd: nat, mem: bool, room: nat)
    requires Sorted(p.rcv.ooo, 0) && p.snd.mss >= 1 && p.snd.una <= p.snd.nxt
    requires g.data != [] ==> p.rcv.nxt < g.sq + |g.data|
    ensures SameRcv(FinStage(DataStage(p, g, wnd, mem).p, g).rcv, Absorbed(p, g, wnd, mem, room).p.rcv)
  {
    var d := DataStage(p, g, wnd, mem);
    hide DataStage, Output;
    var p1 := FinStage(d.p, g);
    assert p1.snd == p.snd;
    hide FinStage;
    ReplySame(p1, p1.rcv.finRcvd != d.p.rcv.finRcvd, d.when, d.taken);
    hide Reply;
    OutputSame(Reply(p1, p1.rcv.finRcvd != d.p.rcv.finRcvd, d.when, d.taken).p, room);
  }

  lemma StoredSame(r: Rcv, r2: Rcv, g: Segment, mem: bool, d: Rcv, d2: Rcv, from: nat, to: nat)
    requires r2.nxt == r.nxt && r2.buf == r.buf && r2.ooo == r.ooo && r2.finRcvd == r.finRcvd
    requires Stored(r2, g, mem, d, from, to)
    requires d2.buf == d.buf && d2.ooo == d.ooo && DataEnd(r, d2) == DataEnd(r2, d)
    ensures Stored(r, g, mem, d2, from, to)
  {
    hide IsGap, OooBytes, Parked;
    var x, y := d.(nxt := DataEnd(r2, d)), d2.(nxt := DataEnd(r, d2));
    forall q: nat ensures HoldsAfter(r, IntakeOf(r, g), from, to, mem, y, q) {
      assert HoldsAfter(r2, IntakeOf(r2, g), from, to, mem, x, q);
      HeldSame(x, y, q);
      HeldSame(r2, r, q);
      hide Held;
    }
  }

  /** Exactly which bytes are held after a segment with data: those before, the in-order ones that fit, and the
      rest, or all of it behind a hole, as far as the gap it falls into goes. What becomes contiguous is pulled in
      as far as there is room, and the FIN is taken exactly if it is known and everything before it is in. */
  lemma RxStores(p: Pcb, g: Segment, env: Env) returns (from: nat, to: nat)
    requires WellFormed(p) && Passes(p, g) && StateOk(p, true) && TakesData(p.state) && g.data != []
    requires p.rcv.hasFin && g.fin ==> p.rcv.finSeq == g.sq + |g.data|
    ensures var r' := Rx(p, g, env).p.rcv;
            && Stored(p.rcv, g, env.mem, r', from, to)
            && (FinNow(p.rcv, r') <==> FinKnown(p.rcv, g) && DataEnd(p.rcv, r') == FinAt(p.rcv, g))
  {
    hide AfterAck, Rx, Acked, Absorbed, AckStage, Sorted, DataStage, FinStage, Stored;
    RxPasses(p, g, env);
    AfterAckIs(p, g, env.room1);
    var p2 := AfterAck(p, g, env.room1);
    assert !p2.state.Closed? && SameRcv(p.rcv, p2.rcv) && TakesData(p2.state) && !p.rcv.finRcvd;
    assert RcvSpace(p.rcv) == Space(p2.rcv) && p2.rcv.nxt < g.sq + |g.data|;
    hide SeqAcceptable, StateOk;
    AbsorbedIs(p2, g, Space(p2.rcv), env.mem, env.room2);
    if g.sq <= p2.rcv.nxt {
      from, to := StoredInOrder(p2, g, env.mem);
    } else {
      from, to := StoredBehind(p2, g, env.mem);
    }
    var d := DataStage(p2, g, Space(p2.rcv), env.mem).p;
    FinStageIs(p2.rcv, d, g);
    StoredSame(p.rcv, p2.rcv, g, env.mem, d.rcv, Rx(p, g, env).p.rcv, from, to);
  }

  /** Without data, or in a state that takes none, nothing but the FIN is taken. */
  lemma RxStoresNone(p: Pcb, g: Segment, env: Env)
    requires WellFormed(p) && Passes(p, g) && StateOk(p, true) && !EndsLastAck(p, g) && !p.rcv.finRcvd
    requires g.data == [] || !TakesData(p.state)
    ensures var r' := Rx(p, g, env).p.rcv;
            && r'.buf == p.rcv.buf && r'.ooo == p.rcv.ooo && DataEnd(p.rcv, r') == p.rcv.nxt
            && (FinNow(p.rcv, r') <==>
                  if g.fin then p.rcv.nxt == g.sq + |g.data| else p.rcv.hasFin && p.rcv.nxt == p.rcv.finSeq)
  {
    RxPasses(p, g, env);
    AfterAckIs(p, g, env.room1);
    var p2 := AfterAck(p, g, env.room1);
    hide AfterAck, Rx, Acked, SeqAcceptable, StateOk, Absorbed;
    assert SameRcv(p.rcv, p2.rcv);
    AbsorbedIs(p2, g, RcvSpace(p.rcv), env.mem, env.room2);
    assert DataStage(p2, g, RcvSpace(p.rcv), env.mem).p == p2;
    CheckFinIs(if g.fin then p2.(rcv := p2.rcv.(hasFin := true, finSeq := g.sq + |g.data|)) else p2);
    hide DataStage, CheckFin;
  }
}
