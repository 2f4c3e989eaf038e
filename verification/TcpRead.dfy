/** What a reader gets (kernel/net/tcp.c:888-940): the next bytes of the peer's stream, whether it takes them or
    only peeks, as soon as the first of them is held. */
module TcpRead {
  import opened TcpSpec
  import opened TcpInvariant
  import opened TcpEndpoint
  import TcpStream

  /** A peek changes nothing but what it pulls in from the parked segments. */
  lemma PeekDrains(p: Pcb, len: nat)
    ensures Recv(p, len, true).p == RecvDrained(p) && Recv(p, len, true).out == []
  {
    hide RecvDrained;
  }

  /** The endpoint after that keeps its invariant. */
  lemma DrainedOk(x: End, y: End)
    requires EndOk(x, y)
    ensures EndOk(x.(p := RecvDrained(x.p)), y)
  {
    PeekDrains(x.p, 0);
    hide EndOk, Recv, RecvDrained;
    RecvGood(x, 0, true, y);
  }

  /** A read, peeking or not, returns the next bytes of the peer's stream: as many as asked for, or all that is
      buffered once the parked segments are pulled in. */
  lemma ReadGives(x: End, len: nat, peek: bool, y: End)
    requires EndOk(x, y)
    ensures var s := Recv(x.p, len, peek);
            var n := Min(len, |RecvDrained(x.p).rcv.buf|);
            && (n > 0 ==> s.IoDone? && |x.got| + n <= |y.stream| && s.data == y.stream[|x.got|..|x.got| + n])
            && (n == 0 && s.IoDone? ==> s.data == [])
  {
    hide Recv, RecvDrained, EndOk;
    DrainedOk(x, y);
    RecvIs(x.p, len, peek);
    BufferIsNext(x.(p := RecvDrained(x.p)), y);
    var d := RecvDrained(x.p);
    var n := Min(len, |d.rcv.buf|);
    if n > 0 { assert d.rcv.buf[..n] == y.stream[|x.got|..|x.got| + |d.rcv.buf|][..n]; }
  }

  lemma RecvIs(p: Pcb, len: nat, peek: bool)
    ensures var s, buf := Recv(p, len, peek), RecvDrained(p).rcv.buf;
            && (Min(len, |buf|) > 0 ==> s.IoDone? && s.data == buf[..Min(len, |buf|)])
            && (Min(len, |buf|) == 0 && s.IoDone? ==> s.data == [])
  {
    hide RecvDrained, ReadOff;
  }

  lemma BufferIsNext(x: End, y: End)
    requires EndOk(x, y)
    ensures |x.got| + |x.p.rcv.buf| <= |y.stream|
    ensures x.p.rcv.buf == y.stream[|x.got|..|x.got| + |x.p.rcv.buf|]
  {
    hide SndOk, AckOk, StateOk, Sorted, SliceAt;
    var all := x.got + x.p.rcv.buf;
    assert all <= y.stream;
    assert x.p.rcv.buf == all[|x.got|..];
  }

  /** And it returns some as soon as the next byte of the stream is held, in order or parked. */
  lemma ReadFindsNext(x: End, len: nat, peek: bool, y: End)
    requires EndOk(x, y) && len > 0 && |x.got| < |y.stream|
    ensures var s := Recv(x.p, len, peek);
            s.IoDone? && s.data != [] <==> Held(x.p.rcv, y.base + |x.got|)
  {
    NextHeld(x, y);
    hide RecvDrained, ReadOff;
  }

  lemma NextHeld(x: End, y: End)
    requires EndOk(x, y) && |x.got| < |y.stream|
    ensures RecvDrained(x.p).rcv.buf != [] <==> Held(x.p.rcv, y.base + |x.got|)
  {
    hide SndOk, AckOk, StateOk, Drain;
    var r := x.p.rcv;
    assert |x.got + r.buf| == |x.got| + |r.buf|;
    if r.buf == [] {
      assert r.nxt == y.base + |x.got|;
      SortedHead(r.ooo, r.nxt);
      if DrainReady(r) {
        assert r.ooo[0] in r.ooo && Holds(r.ooo[0], r.nxt);
        DrainTakes(r);
      } else if r.ooo != [] {
        SortedFrom(r.ooo, r.nxt);
      }
    }
  }

  lemma SortedFrom(ooo: seq<Chunk>, lo: nat)
    requires Sorted(ooo, lo) && ooo != []
    ensures forall c :: c in ooo ==> ooo[0].at <= c.at
  {
    SortedHead(ooo[1..], ooo[0].End());
  }

  /** Draining a queue that begins right at `nxt` delivers at least a byte. */
  lemma DrainTakes(r: Rcv)
    requires DrainReady(r) && r.ooo[0].data != [] && r.ooo[0].at == r.nxt && r.buf == []
    ensures Drain(r).buf != []
  {
    var d := DrainStep(r);
    assert d.buf != [];
    if |d.ooo| < |r.ooo| { DrainGrows(d); }
  }

  lemma {:induction false} DrainGrows(r: Rcv)
    ensures r.buf <= Drain(r).buf
    decreases |r.ooo|
  {
    if DrainReady(r) {
      var d := DrainStep(r);
      assert r.buf <= d.buf;
      if |d.ooo| < |r.ooo| { DrainGrows(d); }
    }
  }

  /** A peek leaves every later read's answer, and everything else it does, the same. */
  lemma PeekKeepsNext(x: End, len: nat, n: nat, peek: bool, y: End)
    requires EndOk(x, y)
    ensures Recv(Recv(x.p, len, true).p, n, peek) == Recv(x.p, n, peek)
  {
    PeekDrains(x.p, len);
    DrainOnce(x, y);
  }

  lemma DrainOnce(x: End, y: End)
    requires EndOk(x, y)
    ensures RecvDrained(RecvDrained(x.p)) == RecvDrained(x.p)
  {
    DrainedOk(x, y);
    hide SndOk, AckOk, StateOk, Drain;
    var r := x.p.rcv;
    if r.buf == [] && DrainReady(r) {
      SortedHead(r.ooo, r.nxt);
      DrainTakes(r);
    }
  }

  /** All of it in every reachable state, for either side. */
  lemma ReadsStream(v: TcpStream.World, len: nat, peek: bool)
    requires TcpStream.Reachable(v) && len > 0
    ensures var s := Recv(v.b.p, len, peek);
            && (s.IoDone? && s.data != [] ==>
                  var n := Min(len, |RecvDrained(v.b.p).rcv.buf|);
                  |v.b.got| + n <= |v.a.stream| && s.data == v.a.stream[|v.b.got|..|v.b.got| + n])
            && (|v.b.got| < |v.a.stream| ==>
                  (s.IoDone? && s.data != [] <==> Held(v.b.p.rcv, v.a.base + |v.b.got|)))
  {
    TcpStream.ReachableInv(v);
    hide EndOk, Recv, Held, RecvDrained;
    ReadGives(v.b, len, peek, v.a);
    if |v.b.got| < |v.a.stream| { ReadFindsNext(v.b, len, peek, v.a); }
  }
}
