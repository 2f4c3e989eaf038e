/** zaefs directory blocks as bytes: 4096-byte blocks of records scanned by offset and edited in
    place, against the record lists of ZaefsDirSpec (kernel/fs/zaefs.c:505-682). */
module ZaefsDir {
  import opened ZaefsBytes
  import opened ZaefsDirSpec

  // ---- reading bytes as records ----------------------------------------------------------------

  /** The record length stored at `off`. */
  function Span(b: seq<Byte>, off: nat): nat
    requires off + 8 <= |b|
  {
    U16(b, off + 4)
  }

  predicate HeaderOk(b: seq<Byte>, off: nat)
    requires |b| == BS
  {
    && off + 8 <= BS && Span(b, off) % 8 == 0 && off + Span(b, off) <= BS
    && 8 + b[off + 6] <= Size(b[off + 6]) <= Span(b, off)
  }

  function RecAt(b: seq<Byte>, off: nat): Rec
    requires |b| == BS && HeaderOk(b, off)
  {
    Rec(U32(b, off), Span(b, off), b[off + 7], b[off + 8..off + 8 + b[off + 6]])
  }

  /** From `off` on the block is covered exactly by well-formed records. */
  predicate Tiled(b: seq<Byte>, off: nat)
    requires |b| == BS && off <= BS
    decreases BS - off
  {
    off == BS || (HeaderOk(b, off) && Tiled(b, off + Span(b, off)))
  }

  function Parse(b: seq<Byte>, off: nat): seq<Rec>
    requires |b| == BS && off <= BS && Tiled(b, off)
    decreases BS - off
  {
    if off == BS then [] else [RecAt(b, off)] + Parse(b, off + Span(b, off))
  }

  /** `off` is a record boundary when scanning from `start`. */
  predicate Reaches(b: seq<Byte>, start: nat, off: nat)
    requires |b| == BS && start <= BS
    decreases BS - start
  {
    start == off || (start < off && HeaderOk(b, start) && Reaches(b, start + Span(b, start), off))
  }

  /** The records scanned before reaching `off`. */
  function Before(b: seq<Byte>, start: nat, off: nat): seq<Rec>
    requires |b| == BS && start <= BS && Reaches(b, start, off)
    decreases BS - start
  {
    if start == off then [] else [RecAt(b, start)] + Before(b, start + Span(b, start), off)
  }

  /** A record starts at `off`, and the block is tiled after it. */
  predicate At(b: seq<Byte>, off: nat)
    requires |b| == BS
  {
    HeaderOk(b, off) && Reaches(b, 0, off) && Tiled(b, off + Span(b, off))
  }

  function After(b: seq<Byte>, off: nat): seq<Rec>
    requires |b| == BS && At(b, off)
  {
    Parse(b, off + Span(b, off))
  }

  lemma {:induction false} ReachesBound(b: seq<Byte>, start: nat, off: nat)
    requires |b| == BS && start <= BS && Reaches(b, start, off)
    ensures start <= off <= BS
    decreases BS - start
  {
    if start != off { ReachesBound(b, start + Span(b, start), off); }
  }

  lemma {:induction false} ScanSplit(b: seq<Byte>, start: nat, off: nat)
    requires |b| == BS && start <= BS && off <= BS && Reaches(b, start, off)
    ensures Tiled(b, start) <==> Tiled(b, off)
    ensures Tiled(b, start) ==> Parse(b, start) == Before(b, start, off) + Parse(b, off)
    decreases BS - start
  {
    if start != off {
      var next := start + Span(b, start);
      ScanSplit(b, next, off);
      ReachesBound(b, next, off);
      assert Tiled(b, start) <==> Tiled(b, next);
      if Tiled(b, next) {
        assert Parse(b, start) == [RecAt(b, start)] + Parse(b, next);
        assert Before(b, start, off) == [RecAt(b, start)] + Before(b, next, off);
        hide *;
        SeqAssoc([RecAt(b, start)], Before(b, next, off), Parse(b, off));
      }
    }
  }

  lemma SeqAssoc<T>(a: seq<T>, b: seq<T>, c: seq<T>)
    ensures a + (b + c) == (a + b) + c
  {
  }

  lemma {:induction false} ScanStep(b: seq<Byte>, start: nat, off: nat)
    requires |b| == BS && start <= BS && Reaches(b, start, off) && HeaderOk(b, off)
    ensures Reaches(b, start, off + Span(b, off))
    ensures Before(b, start, off + Span(b, off)) == Before(b, start, off) + [RecAt(b, off)]
    decreases BS - start
  {
    ReachesBound(b, start, off);
    if start != off {
      ScanStep(b, start + Span(b, start), off);
    } else {
      assert Before(b, start + Span(b, start), off + Span(b, off)) == [];
    }
  }

  lemma HeaderSame(b: seq<Byte>, c: seq<Byte>, off: nat)
    requires |b| == BS && HeaderOk(b, off) && Agree(b, c, off, off + Span(b, off))
    ensures HeaderOk(c, off) && RecAt(c, off) == RecAt(b, off) && Span(c, off) == Span(b, off)
  {
    hide Size;
    assert b[off + 8..off + 8 + b[off + 6]] == c[off + 8..off + 8 + b[off + 6]];
  }

  lemma {:induction false} ScanSame(b: seq<Byte>, c: seq<Byte>, start: nat, off: nat)
    requires |b| == BS && start <= BS && Reaches(b, start, off) && Agree(b, c, start, off)
    ensures Reaches(c, start, off) && Before(c, start, off) == Before(b, start, off)
    decreases BS - start
  {
    if start != off {
      ReachesBound(b, start + Span(b, start), off);
      HeaderSame(b, c, start);
      ScanSame(b, c, start + Span(b, start), off);
      hide RecAt, HeaderOk;
    }
  }

  lemma {:induction false} ParseSame(b: seq<Byte>, c: seq<Byte>, off: nat)
    requires |b| == BS && off <= BS && Tiled(b, off) && Agree(b, c, off, BS)
    ensures Tiled(c, off) && Parse(c, off) == Parse(b, off)
    decreases BS - off
  {
    if off != BS {
      HeaderSame(b, c, off);
      ParseSame(b, c, off + Span(b, off));
      hide RecAt, HeaderOk;
    }
  }

  lemma {:induction false} ParsedOk(b: seq<Byte>, off: nat)
    requires |b| == BS && off <= BS && Tiled(b, off)
    ensures RecsOk(Parse(b, off)) && SpanOf(Parse(b, off)) == BS - off
    decreases BS - off
  {
    if off != BS {
      ParsedOk(b, off + Span(b, off));
      assert Parse(b, off)[1..] == Parse(b, off + Span(b, off));
      assert RecOk(RecAt(b, off));
    }
  }

  /** Replace the record at `off` by what lies in [off, end) of `c`. */
  lemma Splice(b: seq<Byte>, c: seq<Byte>, off: nat, end: nat, mid: seq<Rec>)
    requires |b| == BS && Reaches(b, 0, off) && off <= end <= BS && Tiled(b, end)
    requires Agree(b, c, 0, off) && Agree(b, c, end, BS)
    requires Reaches(c, off, end) && Before(c, off, end) == mid
    ensures Tiled(c, 0) && Parse(c, 0) == Before(b, 0, off) + mid + Parse(b, end)
  {
    hide Tiled, Parse, Reaches, Before;
    ScanSame(b, c, 0, off);
    ParseSame(b, c, end);
    ScanSplit(c, off, end);
    ScanSplit(c, 0, off);
  }

  // ---- the whole directory -----------------------------------------------------------------------

  predicate BlockOk(b: seq<Byte>) { |b| == BS && Tiled(b, 0) }

  predicate BlocksOk(bs: seq<seq<Byte>>) { forall i :: 0 <= i < |bs| ==> BlockOk(bs[i]) }

  function Records(bs: seq<seq<Byte>>): seq<Rec>
    requires BlocksOk(bs)
  {
    if bs == [] then [] else Parse(bs[0], 0) + Records(bs[1..])
  }

  lemma {:induction false} RecordsAppend(a: seq<seq<Byte>>, b: seq<seq<Byte>>)
    requires BlocksOk(a) && BlocksOk(b)
    ensures BlocksOk(a + b) && Records(a + b) == Records(a) + Records(b)
  {
    if a == [] {
      assert a + b == b;
    } else {
      assert (a + b)[1..] == a[1..] + b;
      RecordsAppend(a[1..], b);
      hide Parse;
      assert Records(a + b) == Parse(a[0], 0) + (Records(a[1..]) + Records(b));
    }
  }

  lemma RecordsOne(b: seq<Byte>)
    requires BlockOk(b)
    ensures Records([b]) == Parse(b, 0)
  {
    hide Parse;
    assert [b][1..] == [];
  }

  lemma RecordsAt(bs: seq<seq<Byte>>, i: nat)
    requires BlocksOk(bs) && i < |bs|
    ensures Records(bs) == Records(bs[..i]) + Parse(bs[i], 0) + Records(bs[i + 1..])
    ensures Records(bs[..i + 1]) == Records(bs[..i]) + Parse(bs[i], 0)
  {
    assert BlocksOk(bs[..i]) && BlocksOk([bs[i]]) && BlocksOk(bs[i + 1..]);
    hide Parse, Records, BlocksOk, BlockOk;
    RecordsOne(bs[i]);
    Cut(bs, i);
    RecordsAppend(bs[..i], [bs[i]]);
    RecordsAppend(bs[..i] + [bs[i]], bs[i + 1..]);
  }

  lemma Cut<T>(s: seq<T>, i: nat)
    requires i < |s|
    ensures s == s[..i] + [s[i]] + s[i + 1..] && s[..i + 1] == s[..i] + [s[i]]
  {
  }

  lemma RecordsPut(bs: seq<seq<Byte>>, i: nat, b: seq<Byte>)
    requires BlocksOk(bs) && i < |bs| && BlockOk(b)
    ensures BlocksOk(bs[i := b])
    ensures Records(bs[i := b]) == Records(bs[..i]) + Parse(b, 0) + Records(bs[i + 1..])
  {
    hide Records, Parse, Tiled;
    var ns := bs[i := b];
    RecordsAt(ns, i);
    assert ns[..i] == bs[..i] && ns[i + 1..] == bs[i + 1..];
  }

  lemma {:induction false} RecordsOk(bs: seq<seq<Byte>>)
    requires BlocksOk(bs)
    ensures RecsOk(Records(bs)) && SpanOf(Records(bs)) == |bs| * BS
  {
    if bs != [] {
      RecordsOk(bs[1..]);
      ParsedOk(bs[0], 0);
      SpanAppend(Parse(bs[0], 0), Records(bs[1..]));
      hide Parse, SpanOf;
    }
  }

  // ---- editing a block in place ------------------------------------------------------------------

  /** What a written record looks like, its length field aside. */
  ghost predicate Holds(b: seq<Byte>, off: nat, e: Entry)
    requires |b| == BS && off + 8 + |e.name| <= BS
  {
    U32(b, off) == e.ino && b[off + 6] == |e.name| && b[off + 7] == e.kind && b[off + 8..off + 8 + |e.name|] == e.name
  }

  /** Fill in a record at `off`, leaving its length as it is. */
  method PutEntry(blk: array<Byte>, off: nat, e: Entry)
    requires blk.Length == BS && EntryOk(e) && off + 8 + |e.name| <= BS
    modifies blk
    ensures Holds(blk[..], off, e) && U16(blk[..], off + 4) == old(U16(blk[..], off + 4))
    ensures Agree(old(blk[..]), blk[..], 0, off) && Agree(old(blk[..]), blk[..], off + 8 + |e.name|, BS)
  {
    hide U16, U32;
    PutU32(blk, off, e.ino);
    ghost var b := blk[..];
    U16Same(old(blk[..]), b, off + 4);
    blk[off + 6] := |e.name|;
    blk[off + 7] := e.kind;
    ghost var c := blk[..];
    PutBytes(blk, off + 8, e.name);
    U16Same(b, c, off + 4);
    U16Same(c, blk[..], off + 4);
    U32Same(b, c, off);
    U32Same(c, blk[..], off);
  }

  /** Only the record at `off` of `b` was rewritten in `c`, as the records `mid`. */
  ghost predicate Rewrote(b: seq<Byte>, c: seq<Byte>, off: nat, mid: seq<Rec>)
    requires |b| == BS && |c| == BS && HeaderOk(b, off)
  {
    && Agree(b, c, 0, off) && Agree(b, c, off + Span(b, off), BS)
    && Reaches(c, off, off + Span(b, off)) && Before(c, off, off + Span(b, off)) == mid
  }

  /** Cut a live record down to what it needs and put the entry behind it. */
  method PutBehind(blk: array<Byte>, off: nat, e: Entry)
    requires blk.Length == BS && HeaderOk(blk[..], off) && U32(blk[..], off) != 0
    requires EntryOk(e) && Fits(RecAt(blk[..], off), Size(|e.name|)) && RecOk(RecAt(blk[..], off))
    modifies blk
    ensures Rewrote(old(blk[..]), blk[..], off, Place(RecAt(old(blk[..]), off), e))
  {
    hide Tiled, Parse, Reaches, Before, U16, U32, Size;
    ghost var b := blk[..];
    SizePadded(|e.name|);
    SizePadded(b[off + 6]);
    var total, used := Span(blk[..], off), Size(blk[off + 6]);
    PutU16(blk, off + 4, used);
    ghost var c := blk[..];
    PutU16(blk, off + used + 4, total - used);
    ghost var d := blk[..];
    PutEntry(blk, off + used, e);
    HeadKept(b, c, d, blk[..], off);
    SplitHeld(b, blk[..], off, e);
  }

  /** Put the entry over a freed record. */
  method PutOver(blk: array<Byte>, off: nat, e: Entry)
    requires blk.Length == BS && HeaderOk(blk[..], off) && U32(blk[..], off) == 0
    requires EntryOk(e) && Fits(RecAt(blk[..], off), Size(|e.name|)) && RecOk(RecAt(blk[..], off))
    modifies blk
    ensures Rewrote(old(blk[..]), blk[..], off, Place(RecAt(old(blk[..]), off), e))
  {
    hide Tiled, Parse, Reaches, Before, U16, U32, Size;
    SizePadded(|e.name|);
    PutEntry(blk, off, e);
    ReuseHeld(old(blk[..]), blk[..], off, e);
  }

  /** dir_add's edit of the first record with room. */
  method PutAt(blk: array<Byte>, off: nat, e: Entry)
    requires blk.Length == BS && Tiled(blk[..], 0) && Reaches(blk[..], 0, off) && HeaderOk(blk[..], off)
    requires EntryOk(e) && Fits(RecAt(blk[..], off), Size(|e.name|))
    modifies blk
    ensures Tiled(blk[..], 0)
    ensures old(At(blk[..], off)) && old(RecOk(RecAt(blk[..], off)))
    ensures Parse(blk[..], 0) == old(Before(blk[..], 0, off) + Place(RecAt(blk[..], off), e)
                                     + After(blk[..], off))
  {
    hide Tiled, Parse, Reaches, Before, U16, U32, Size, Place, RecOk;
    ghost var b := blk[..];
    AfterTiled(b, off);
    RecAtOk(b, off);
    if U32(blk[..], off) != 0 {
      PutBehind(blk, off, e);
    } else {
      PutOver(blk, off, e);
    }
    Splice(b, blk[..], off, off + Span(b, off), Place(RecAt(b, off), e));
  }

  lemma AfterTiled(b: seq<Byte>, off: nat)
    requires |b| == BS && Tiled(b, 0) && Reaches(b, 0, off) && HeaderOk(b, off)
    ensures At(b, off) && Tiled(b, off)
    ensures Parse(b, 0) == Before(b, 0, off) + [RecAt(b, off)] + After(b, off)
  {
    hide Parse, Before, RecAt;
    ScanSplit(b, 0, off);
    ScanStep(b, 0, off);
    ScanSplit(b, 0, off + Span(b, off));
  }

  /** The shortened record keeps its other fields through the three edits. */
  lemma HeadKept(b: seq<Byte>, c: seq<Byte>, d: seq<Byte>, f: seq<Byte>, off: nat)
    requires |b| == BS && HeaderOk(b, off) && |c| == |d| == |f| == BS
    requires off + Size(b[off + 6]) + 8 <= BS && U16(c, off + 4) == Size(b[off + 6])
    requires Agree(b, c, 0, off + 4) && Agree(b, c, off + 6, BS)
    requires Agree(c, d, 0, off + Size(b[off + 6])) && Agree(d, f, 0, off + Size(b[off + 6]))
    ensures HeaderOk(f, off) && RecAt(f, off) == RecAt(b, off).(len := Size(b[off + 6])) && Agree(b, f, 0, off)
    ensures Span(f, off) == Size(b[off + 6])
  {
    hide U16, U32, Size;
    SizePadded(b[off + 6]);
    U16Same(c, d, off + 4);
    U16Same(d, f, off + 4);
    assert Agree(c, f, 0, off + Size(b[off + 6]));
    assert Agree(b, f, off, off + 4);
    U32Same(b, f, off);
    assert b[off + 8..off + 8 + b[off + 6]] == f[off + 8..off + 8 + b[off + 6]];
  }

  lemma RecAtOk(b: seq<Byte>, off: nat)
    requires |b| == BS && HeaderOk(b, off)
    ensures RecOk(RecAt(b, off))
  {
    hide Size;
  }

  lemma OneRecord(f: seq<Byte>, off: nat)
    requires |f| == BS && HeaderOk(f, off)
    ensures Reaches(f, off, off + Span(f, off)) && Before(f, off, off + Span(f, off)) == [RecAt(f, off)]
  {
    hide RecAt;
    assert Before(f, off + Span(f, off), off + Span(f, off)) == [];
  }

  lemma TwoRecords(f: seq<Byte>, off: nat)
    requires |f| == BS && HeaderOk(f, off) && HeaderOk(f, off + Span(f, off))
    ensures var mid := off + Span(f, off);
            Reaches(f, off, mid + Span(f, mid)) && Before(f, off, mid + Span(f, mid)) == [RecAt(f, off), RecAt(f, mid)]
  {
    hide Before, Reaches, RecAt;
    OneRecord(f, off);
    ScanStep(f, off, off + Span(f, off));
  }

  lemma SplitHeld(b: seq<Byte>, f: seq<Byte>, off: nat, e: Entry)
    requires |b| == |f| == BS && HeaderOk(b, off) && HeaderOk(f, off) && EntryOk(e)
    requires U32(b, off) != 0 && Fits(RecAt(b, off), Size(|e.name|))
    requires RecAt(f, off) == RecAt(b, off).(len := Size(b[off + 6])) && Span(f, off) == Size(b[off + 6])
    requires off + Span(f, off) + 8 + |e.name| <= BS && Holds(f, off + Span(f, off), e)
    requires U16(f, off + Span(f, off) + 4) == Span(b, off) - Size(b[off + 6])
    ensures Reaches(f, off, off + Span(b, off))
    ensures RecOk(RecAt(b, off)) && Before(f, off, off + Span(b, off)) == Place(RecAt(b, off), e)
  {
    hide U16, U32, Size, Before, Reaches;
    SizePadded(|e.name|);
    SizePadded(b[off + 6]);
    RecAtOk(b, off);
    TwoRecords(f, off);
  }

  lemma ReuseHeld(b: seq<Byte>, f: seq<Byte>, off: nat, e: Entry)
    requires |b| == |f| == BS && HeaderOk(b, off) && EntryOk(e) && off + 8 + |e.name| <= BS
    requires U32(b, off) == 0 && Fits(RecAt(b, off), Size(|e.name|))
    requires Holds(f, off, e) && U16(f, off + 4) == Span(b, off)
    ensures Reaches(f, off, off + Span(b, off))
    ensures RecOk(RecAt(b, off)) && Before(f, off, off + Span(b, off)) == Place(RecAt(b, off), e)
  {
    hide U16, U32, Size, Before, Reaches;
    RecAtOk(b, off);
    SizePadded(|e.name|);
    OneRecord(f, off);
  }

  // ---- scans -----------------------------------------------------------------------------------------

  /** The first record with room for `need` more bytes, or the block's end. */
  method ScanFit(blk: array<Byte>, need: nat) returns (off: nat)
    requires blk.Length == BS && Tiled(blk[..], 0)
    ensures Reaches(blk[..], 0, off) && off <= BS && NoneFits(Before(blk[..], 0, off), need)
    ensures off < BS ==> HeaderOk(blk[..], off) && Fits(RecAt(blk[..], off), need)
  {
    hide Parse, Before, Reaches;
    ghost var b := blk[..];
    off := 0;
    ScanStart(b);
    while off + 8 <= BS && Span(blk[..], off) >= 8
      invariant off <= BS && Reaches(b, 0, off) && NoneFits(Before(b, 0, off), need) && Tiled(b, off)
      decreases BS - off
    {
      var used := if U32(blk[..], off) != 0 then Size(blk[off + 6]) else 0;
      if Span(blk[..], off) - used >= need { return; }
      ScanStep(b, 0, off);
      off := off + Span(blk[..], off);
    }
  }

  lemma ScanStart(b: seq<Byte>)
    requires |b| == BS
    ensures Reaches(b, 0, 0) && Before(b, 0, 0) == []
  {
  }

  /** The first record bearing `name` (a live one if `live`), or the block's end. */
  method ScanName(blk: array<Byte>, name: Name, live: bool) returns (off: nat)
    requires blk.Length == BS && Tiled(blk[..], 0)
    ensures Reaches(blk[..], 0, off) && off <= BS
    ensures NoneMatch(Before(blk[..], 0, off), name, live)
    ensures off < BS ==> HeaderOk(blk[..], off) && Matches(RecAt(blk[..], off), name, live)
  {
    hide Parse, Before, Reaches, Size;
    ghost var b := blk[..];
    off := 0;
    ScanStart(b);
    while off + 8 <= BS && Span(blk[..], off) >= 8
      invariant off <= BS && Reaches(b, 0, off) && NoneMatch(Before(b, 0, off), name, live) && Tiled(b, off)
      decreases BS - off
    {
      if (!live || U32(blk[..], off) != 0) && blk[off + 6] == |name| && blk[off + 8..off + 8 + |name|] == name {
        return;
      }
      ScanStep(b, 0, off);
      off := off + Span(blk[..], off);
    }
  }

  predicate Matches(r: Rec, name: Name, live: bool) { r.name == name && (live ==> r.ino != 0) }

  predicate NoneMatch(rs: seq<Rec>, name: Name, live: bool) {
    forall i :: 0 <= i < |rs| ==> !Matches(rs[i], name, live)
  }

  // ---- from one block to the directory -------------------------------------------------------------

  /** The records around offset `off` of block `i`. */
  lemma Around(bs: seq<seq<Byte>>, i: nat, off: nat)
    requires BlocksOk(bs) && i < |bs| && Reaches(bs[i], 0, off) && HeaderOk(bs[i], off)
    ensures At(bs[i], off) && RecOk(RecAt(bs[i], off))
    ensures Records(bs) == (Records(bs[..i]) + Before(bs[i], 0, off)) + [RecAt(bs[i], off)]
                           + (After(bs[i], off) + Records(bs[i + 1..]))
  {
    hide Records, Parse, Tiled, Before, Reaches, HeaderOk, RecAt, Span, At, After;
    RecordsAt(bs, i);
    AfterTiled(bs[i], off);
    RecAtOk(bs[i], off);
    Regroup(Records(bs[..i]), Before(bs[i], 0, off), [RecAt(bs[i], off)], After(bs[i], off),
            Records(bs[i + 1..]));
  }

  lemma Regroup<T>(p: seq<T>, a: seq<T>, m: seq<T>, c: seq<T>, s: seq<T>)
    ensures p + (a + m + c) + s == (p + a) + m + (c + s)
  {
  }

  /** Replacing that record in its block replaces it in the directory. */
  lemma Replaced(bs: seq<seq<Byte>>, i: nat, off: nat, b: seq<Byte>, m: seq<Rec>)
    requires BlocksOk(bs) && i < |bs| && Reaches(bs[i], 0, off) && HeaderOk(bs[i], off) && BlockOk(b)
    requires At(bs[i], off)
    requires Parse(b, 0) == Before(bs[i], 0, off) + m + After(bs[i], off)
    ensures BlocksOk(bs[i := b])
    ensures Records(bs[i := b]) == (Records(bs[..i]) + Before(bs[i], 0, off)) + m
                                   + (After(bs[i], off) + Records(bs[i + 1..]))
  {
    hide Records, Parse, Tiled, Before, Reaches, HeaderOk, RecAt, Span, At, After;
    RecordsPut(bs, i, b);
    Regroup(Records(bs[..i]), Before(bs[i], 0, off), m, After(bs[i], off), Records(bs[i + 1..]));
  }

  lemma AddAround(p: seq<Rec>, r: Rec, s: seq<Rec>, e: Entry)
    requires RecsOk(p + [r] + s) && NoneFits(p, Size(|e.name|)) && Fits(r, Size(|e.name|)) && RecOk(r)
    ensures Add(p + [r] + s, e) == p + Place(r, e) + s && HasRoom(p + [r] + s, e)
  {
    hide Size, FirstFit, Place;
    var rs := p + [r] + s;
    assert rs == p + ([r] + s);
    FirstFitIs(p, [r] + s, Size(|e.name|));
    assert rs[..|p|] == p && rs[|p|] == r && rs[|p| + 1..] == s;
  }

  lemma RemoveAround(p: seq<Rec>, r: Rec, s: seq<Rec>, name: Name)
    requires NoneNamed(p, name) && r.name == name
    ensures Remove(p + [r] + s, name) == p + [r.(ino := 0)] + s
  {
    hide FirstNamed;
    var rs := p + [r] + s;
    assert rs == p + ([r] + s);
    FirstNamedIs(p, [r] + s, name);
  }

  lemma FoundAround(p: seq<Rec>, r: Rec, s: seq<Rec>)
    requires OnlyFirstLive(p + [r] + s) && r.ino != 0
    ensures r.name in View(p + [r] + s) && View(p + [r] + s)[r.name] == r.ino
  {
    hide View, OnlyFirstLive;
    var rs := p + [r] + s;
    assert rs[|p|] == r;
    ViewAt(rs, |p|);
  }

  lemma ParseEnd(b: seq<Byte>)
    requires |b| == BS
    ensures Tiled(b, BS) && Parse(b, BS) == []
  {
  }

  /** Nothing in the first `i` blocks, nor in all of block `i`: nothing in the first `i + 1`. */
  lemma NextBlock(bs: seq<seq<Byte>>, i: nat)
    requires BlocksOk(bs) && i < |bs| && Reaches(bs[i], 0, BS)
    ensures Records(bs[..i + 1]) == Records(bs[..i]) + Before(bs[i], 0, BS)
  {
    hide Records, Before, Reaches, Parse, Tiled;
    ParseEnd(bs[i]);
    RecordsAt(bs, i);
    ScanSplit(bs[i], 0, BS);
  }

  lemma AllBlocks(bs: seq<seq<Byte>>)
    ensures bs[..|bs|] == bs
  {
  }

  // ---- directories ---------------------------------------------------------------------------------

  class Directory {
    /** The directory's blocks, in file order. */
    var blocks: seq<seq<Byte>>

    ghost predicate Valid()
      reads this
    {
      BlocksOk(blocks) && OnlyFirstLive(Records(blocks))
    }

    /** What the directory binds each name to. */
    ghost function Names(): map<Name, nat>
      requires Valid()
      reads this
    {
      View(Records(blocks))
    }

    constructor ()
      ensures Valid() && blocks == [] && Names() == map[]
    {
      blocks := [];
    }

    method ReadBlock(lblk: nat) returns (blk: array<Byte>)
      requires BlocksOk(blocks) && lblk < |blocks|
      ensures fresh(blk) && blk.Length == BS && blk[..] == blocks[lblk]
    {
      var b := blocks[lblk];
      blk := new Byte[BS](i requires 0 <= i < BS => b[i]);
    }

    /** The inode a name is bound to, 0 when it is not bound. */
    method Lookup(name: Name) returns (ino: nat)
      requires Valid()
      ensures ino == 0 <==> name !in Names()
      ensures ino != 0 ==> Names()[name] == ino
    {
      hide Records, Parse, Tiled, Before, Reaches, HeaderOk, RecAt, Span, At, After, View, OnlyFirstLive;
      NoRecords(blocks);
      for lblk := 0 to |blocks|
        invariant NoneMatch(Records(blocks[..lblk]), name, true)
      {
        var blk := ReadBlock(lblk);
        var off := ScanName(blk, name, true);
        if off < BS {
          Around(blocks, lblk, off);
          ino := InoAt(blk, off);
          FoundAround(Records(blocks[..lblk]) + Before(blocks[lblk], 0, off), RecAt(blocks[lblk], off),
                      After(blocks[lblk], off) + Records(blocks[lblk + 1..]));
          return;
        }
        NextBlock(blocks, lblk);
      }
      AllBlocks(blocks);
      ViewHas(Records(blocks), name);
      return 0;
    }

    method InoAt(blk: array<Byte>, off: nat) returns (ino: nat)
      requires blk.Length == BS && HeaderOk(blk[..], off)
      ensures ino == RecAt(blk[..], off).ino
    {
      ino := U32(blk[..], off);
    }

    /** Bind a name. Fails only when no block has room and none can be allocated. The directory is still a
        map afterwards exactly if the name was not bound. */
    method AddEntry(e: Entry, canGrow: bool) returns (ok: bool)
      requires Valid() && EntryOk(e)
      modifies this
      ensures BlocksOk(blocks) && ok == (canGrow || old(HasRoom(Records(blocks), e)))
      ensures RecsOk(old(Records(blocks)))
      ensures Records(blocks) == if ok then Add(old(Records(blocks)), e) else old(Records(blocks))
      ensures Valid() <==> !ok || e.name !in old(Names())
      ensures !ok ==> Names() == old(Names())
      ensures ok && e.name !in old(Names()) ==> Names() == old(Names())[e.name := e.ino]
      ensures |blocks| == if ok && old(!HasRoom(Records(blocks), e)) then old(|blocks|) + 1 else old(|blocks|)
    {
      hide Records, Parse, Tiled, Before, Reaches, HeaderOk, RecAt, Span, At, After, View, OnlyFirstLive, Add, Size,
           Place, FirstFit;
      RecordsOk(blocks);
      if e.name in Names() { AddTwice(Records(blocks), e); } else { AddRefines(Records(blocks), e); }
      NoRecords(blocks);
      for lblk := 0 to |blocks|
        invariant blocks == old(blocks) && NoneFits(Records(blocks[..lblk]), Size(|e.name|))
      {
        var blk := ReadBlock(lblk);
        var off := ScanFit(blk, Size(|e.name|));
        if off < BS {
          Around(blocks, lblk, off);
          AddAround(Records(blocks[..lblk]) + Before(blocks[lblk], 0, off), RecAt(blocks[lblk], off),
                    After(blocks[lblk], off) + Records(blocks[lblk + 1..]), e);
          PutAt(blk, off, e);
          Replaced(blocks, lblk, off, blk[..], Place(RecAt(blocks[lblk], off), e));
          blocks := blocks[lblk := blk[..]];
          return true;
        }
        NextBlock(blocks, lblk);
      }
      AllBlocks(blocks);
      NoFit(Records(blocks), e);
      if !canGrow { return false; }
      var blk := NewBlock(e);
      RecordsOne(blk[..]);
      RecordsAppend(blocks, [blk[..]]);
      blocks := blocks + [blk[..]];
      return true;
    }

    /** A zeroed block holding one record. */
    method NewBlock(e: Entry) returns (blk: array<Byte>)
      requires EntryOk(e)
      ensures fresh(blk) && blk.Length == BS && BlockOk(blk[..])
      ensures Parse(blk[..], 0) == [Rec(e.ino, BS, e.kind, e.name)]
    {
      hide U16, U32, Size;
      SizePadded(|e.name|);
      blk := new Byte[BS](_ => 0);
      PutU16(blk, 4, BS);
      PutEntry(blk, 0, e);
      assert HeaderOk(blk[..], 0) && Tiled(blk[..], BS) && Parse(blk[..], BS) == [];
    }

    /** Unbind a name; unbinding an absent one changes nothing. */
    method RemoveName(name: Name)
      requires Valid()
      modifies this
      ensures Valid() && Records(blocks) == Remove(old(Records(blocks)), name)
      ensures Names() == old(Names()) - {name} && |blocks| == old(|blocks|)
    {
      hide Records, Parse, Tiled, Before, Reaches, HeaderOk, RecAt, Span, At, After, View, OnlyFirstLive, Remove;
      RecordsOk(blocks);
      RemoveRefines(Records(blocks), name);
      NoRecords(blocks);
      for lblk := 0 to |blocks|
        invariant blocks == old(blocks) && NoneNamed(Records(blocks[..lblk]), name)
      {
        var blk := ReadBlock(lblk);
        var off := ScanName(blk, name, false);
        if off < BS {
          Around(blocks, lblk, off);
          RemoveAround(Records(blocks[..lblk]) + Before(blocks[lblk], 0, off), RecAt(blocks[lblk], off),
                       After(blocks[lblk], off) + Records(blocks[lblk + 1..]), name);
          var ino := InoAt(blk, off);
          if ino != 0 {
            FreeAt(blk, off);
            Replaced(blocks, lblk, off, blk[..], [RecAt(blocks[lblk], off).(ino := 0)]);
            blocks := blocks[lblk := blk[..]];
          }
          return;
        }
        NextBlock(blocks, lblk);
      }
      AllBlocks(blocks);
      NotNamed(Records(blocks), name);
    }

    /** Whether nothing is bound. */
    method IsEmpty() returns (empty: bool)
      requires Valid()
      ensures empty <==> Names() == map[]
    {
      hide Records, Parse, Tiled, Before, Reaches, HeaderOk, RecAt, Span, At, After, View, OnlyFirstLive;
      NoRecords(blocks);
      for lblk := 0 to |blocks|
        invariant forall i :: 0 <= i < |Records(blocks[..lblk])| ==> Records(blocks[..lblk])[i].ino == 0
      {
        var blk := ReadBlock(lblk);
        var off := ScanLive(blk);
        if off < BS {
          Around(blocks, lblk, off);
          FoundAround(Records(blocks[..lblk]) + Before(blocks[lblk], 0, off), RecAt(blocks[lblk], off),
                      After(blocks[lblk], off) + Records(blocks[lblk + 1..]));
          return false;
        }
        NextBlock(blocks, lblk);
      }
      AllBlocks(blocks);
      EmptyView(Records(blocks));
      return true;
    }
  }

  lemma NoRecords(bs: seq<seq<Byte>>)
    ensures BlocksOk([]) && bs[..0] == [] && Records([]) == []
  {
  }

  lemma NoFit(rs: seq<Rec>, e: Entry)
    requires RecsOk(rs) && NoneFits(rs, Size(|e.name|))
    ensures !HasRoom(rs, e) && Add(rs, e) == rs + [Rec(e.ino, BS, e.kind, e.name)]
  {
    hide Size, FirstFit;
    assert rs + [] == rs;
    FirstFitIs(rs, [], Size(|e.name|));
  }

  lemma NotNamed(rs: seq<Rec>, name: Name)
    requires NoneNamed(rs, name)
    ensures Remove(rs, name) == rs
  {
    hide FirstNamed;
    assert rs + [] == rs;
    FirstNamedIs(rs, [], name);
  }

  /** The first live record, or the block's end. */
  method ScanLive(blk: array<Byte>) returns (off: nat)
    requires blk.Length == BS && Tiled(blk[..], 0)
    ensures Reaches(blk[..], 0, off) && off <= BS
    ensures forall i :: 0 <= i < |Before(blk[..], 0, off)| ==> Before(blk[..], 0, off)[i].ino == 0
    ensures off < BS ==> HeaderOk(blk[..], off) && RecAt(blk[..], off).ino != 0
  {
    hide Parse, Before, Reaches, Size;
    ghost var b := blk[..];
    off := 0;
    ScanStart(b);
    while off + 8 <= BS && Span(blk[..], off) >= 8
      invariant off <= BS && Reaches(b, 0, off) && Tiled(b, off)
      invariant forall i :: 0 <= i < |Before(b, 0, off)| ==> Before(b, 0, off)[i].ino == 0
      decreases BS - off
    {
      if U32(blk[..], off) != 0 { return; }
      ScanStep(b, 0, off);
      off := off + Span(blk[..], off);
    }
  }

  /** dir_remove's edit: clear the inode number of a record. */
  method FreeAt(blk: array<Byte>, off: nat)
    requires blk.Length == BS && Tiled(blk[..], 0) && Reaches(blk[..], 0, off) && HeaderOk(blk[..], off)
    modifies blk
    ensures Tiled(blk[..], 0)
    ensures old(At(blk[..], off))
    ensures Parse(blk[..], 0) == old(Before(blk[..], 0, off) + [RecAt(blk[..], off).(ino := 0)]
                                     + After(blk[..], off))
  {
    hide Tiled, Parse, Reaches, Before, U16, U32, Size;
    ghost var b := blk[..];
    AfterTiled(b, off);
    PutU32(blk, off, 0);
    FreedHeld(b, blk[..], off);
    OneRecord(blk[..], off);
    Splice(b, blk[..], off, off + Span(b, off), [RecAt(b, off).(ino := 0)]);
  }

  lemma FreedHeld(b: seq<Byte>, f: seq<Byte>, off: nat)
    requires |b| == |f| == BS && HeaderOk(b, off) && U32(f, off) == 0 && Agree(b, f, off + 4, BS)
    ensures HeaderOk(f, off) && Span(f, off) == Span(b, off) && RecAt(f, off) == RecAt(b, off).(ino := 0)
  {
    hide U16, U32, Size;
    U16Same(b, f, off + 4);
    assert b[off + 8..off + 8 + b[off + 6]] == f[off + 8..off + 8 + b[off + 6]];
  }

  /** Move an entry: unbind it in one directory, bind it in another or the same one. A name that is too
      long is refused. The target is still a map afterwards exactly if the new name was not bound there. */
  method Rename(from: Directory, to: Directory, name: Name, e: Entry, canGrow: bool) returns (ok: bool)
    requires from.Valid() && to.Valid() && 0 < e.ino < 0x1_0000_0000
    modifies from, to
    ensures |e.name| > NAME_MAX ==> !ok && from.Valid() && to.Valid()
    ensures |e.name| > NAME_MAX ==> from.Names() == old(from.Names()) && to.Names() == old(to.Names())
    ensures |e.name| <= NAME_MAX ==>
              ok == (canGrow || RenameRoom(old(Records(from.blocks)), old(Records(to.blocks)), name, e, from == to))
    ensures BlocksOk(to.blocks) && (to.Valid() <==> !ok || e.name !in old(Target(from, to, name)))
    ensures from != to && |e.name| <= NAME_MAX ==> from.Valid() && from.Names() == old(from.Names()) - {name}
    ensures to.Valid() && |e.name| <= NAME_MAX ==>
              to.Names() == if ok then old(Target(from, to, name))[e.name := e.ino] else old(Target(from, to, name))
  {
    hide Records, View, OnlyFirstLive, Add, Remove, HasRoom;
    if |e.name| > NAME_MAX { return false; }
    from.RemoveName(name);
    ok := to.AddEntry(e, canGrow);
  }

  /** What the target directory binds once the old name is gone. */
  ghost function Target(from: Directory, to: Directory, name: Name): map<Name, nat>
    requires from.Valid() && to.Valid()
    reads from, to
  {
    if from == to then to.Names() - {name} else to.Names()
  }

  /** Whether the renamed entry fits without a new block. */
  predicate RenameRoom(from: seq<Rec>, to: seq<Rec>, name: Name, e: Entry, same: bool) {
    HasRoom(if same then Remove(from, name) else to, e)
  }

  /** Within one directory, a rename to a name that needs no more space never needs a block. */
  lemma ShorterRenameFits(rs: seq<Rec>, name: Name, e: Entry)
    requires RecsOk(rs) && name in View(rs) && Size(|e.name|) <= Size(|name|)
    ensures RenameRoom(rs, rs, name, e, true)
  {
    hide Size, View, FirstFit, FirstNamed;
    ViewHas(rs, name);
    FirstNamedSkips(rs, name);
    var k, need, freed := FirstNamed(rs, name), Size(|e.name|), Remove(rs, name);
    assert rs[..|rs|] == rs;
    assert k < |rs| && freed[k].ino == 0 && freed[k].name == name && RecOk(rs[k]);
    assert Fits(freed[k], need);
    FirstFitSkips(freed, need);
    assert freed[..|freed|] == freed;
  }

  /** Across directories a rename can fail half-way: into an empty directory, when no block can be
      had, it always does, and then the name is bound nowhere. */
  lemma RenameIntoEmptyNeedsBlock(from: seq<Rec>, name: Name, e: Entry)
    ensures !RenameRoom(from, [], name, e, false)
  {
  }
}
