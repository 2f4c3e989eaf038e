/** ext4 hashed directories: insertion into the leaf of a name's hash, and splitting a full leaf into
    two by hash (kernel/fs/ext4.c:1067-1182). Leaf blocks are lists of records that tile the block. */
module Ext4Htree {
  type Name = seq<char>
  type Hash = Name -> nat

  datatype Entry = Entry(ino: nat, kind: nat, name: Name)

  /** A record of `len` bytes; `ino` 0 marks an unused one. */
  datatype Rec = Rec(len: nat, e: Entry)

  function Need(nameLen: nat): nat { (8 + nameLen + 3) / 4 * 4 }

  function Used(r: Rec): nat { if r.e.ino != 0 then Need(|r.e.name|) else 0 }

  predicate RecOk(r: Rec) { r.len >= Used(r) && r.len >= 8 }

  function Span(rs: seq<Rec>): nat { if rs == [] then 0 else rs[0].len + Span(rs[1..]) }

  /** The records cover the block exactly, each long enough for its entry. */
  predicate Tiled(rs: seq<Rec>, end: nat) { (forall i :: 0 <= i < |rs| ==> RecOk(rs[i])) && Span(rs) == end }

  function Live(rs: seq<Rec>): seq<Entry> {
    if rs == [] then [] else if rs[0].e.ino != 0 then [rs[0].e] + Live(rs[1..]) else Live(rs[1..])
  }

  predicate EntryOk(e: Entry) { e.ino != 0 }

  // ---- putting an entry into a leaf ------------------------------------------------------------

  predicate Fits(r: Rec, need: nat) { r.len >= Used(r) + need }

  function FirstFit(rs: seq<Rec>, need: nat): (i: nat)
    ensures i <= |rs| && (i < |rs| ==> Fits(rs[i], need))
  {
    if rs == [] || Fits(rs[0], need) then 0 else 1 + FirstFit(rs[1..], need)
  }

  function Place(r: Rec, e: Entry): seq<Rec>
    requires RecOk(r)
  {
    if r.e.ino != 0 then [Rec(Used(r), r.e), Rec(r.len - Used(r), e)] else [Rec(r.len, e)]
  }

  predicate HasRoom(rs: seq<Rec>, e: Entry) { FirstFit(rs, Need(|e.name|)) < |rs| }

  function Insert(rs: seq<Rec>, e: Entry): seq<Rec>
    requires forall i :: 0 <= i < |rs| ==> RecOk(rs[i])
  {
    var i := FirstFit(rs, Need(|e.name|));
    if i < |rs| then rs[..i] + Place(rs[i], e) + rs[i + 1..] else rs
  }

  lemma {:induction false} SpanAppend(a: seq<Rec>, b: seq<Rec>)
    ensures Span(a + b) == Span(a) + Span(b)
  {
    if a == [] { assert a + b == b; } else {
      assert (a + b)[1..] == a[1..] + b;
      SpanAppend(a[1..], b);
    }
  }

  lemma {:induction false} LiveAppend(a: seq<Rec>, b: seq<Rec>)
    ensures Live(a + b) == Live(a) + Live(b)
  {
    if a == [] { assert a + b == b; } else {
      assert (a + b)[1..] == a[1..] + b;
      LiveAppend(a[1..], b);
    }
  }

  lemma One(r: Rec)
    ensures Span([r]) == r.len && Live([r]) == if r.e.ino != 0 then [r.e] else []
  {
    assert [r][1..] == [];
  }

  lemma PlaceOk(r: Rec, e: Entry)
    requires RecOk(r) && EntryOk(e) && Fits(r, Need(|e.name|))
    ensures forall i :: 0 <= i < |Place(r, e)| ==> RecOk(Place(r, e)[i])
    ensures Span(Place(r, e)) == r.len && Live(Place(r, e)) == Live([r]) + [e]
  {
    NeedMin(|e.name|);
    One(r);
    if r.e.ino != 0 {
      NeedMin(|r.e.name|);
      var a, b := Rec(Used(r), r.e), Rec(r.len - Used(r), e);
      assert Place(r, e) == [a] + [b];
      One(a); One(b);
      hide Span, Live;
      SpanAppend([a], [b]);
      LiveAppend([a], [b]);
    } else {
      One(Rec(r.len, e));
    }
  }

  lemma NeedMin(n: nat)
    ensures Need(n) >= 8 + n
  {
  }

  /** Inserting keeps the block tiled and adds the entry to those there, in some place. */
  lemma InsertOk(rs: seq<Rec>, e: Entry, end: nat)
    requires Tiled(rs, end) && EntryOk(e) && HasRoom(rs, e)
    ensures Tiled(Insert(rs, e), end) && multiset(Live(Insert(rs, e))) == multiset(Live(rs)) + multiset{e}
  {
    hide Span, Live, FirstFit, Place;
    var i := FirstFit(rs, Need(|e.name|));
    var a, r, c := rs[..i], [rs[i]], rs[i + 1..];
    assert rs == a + r + c;
    PlaceOk(rs[i], e);
    SpanAppend(a + r, c); SpanAppend(a, r);
    SpanAppend(a + Place(rs[i], e), c); SpanAppend(a, Place(rs[i], e));
    LiveAppend(a + r, c); LiveAppend(a, r);
    LiveAppend(a + Place(rs[i], e), c); LiveAppend(a, Place(rs[i], e));
    One(rs[i]);
    assert multiset(Live(a) + (Live(r) + [e]) + Live(c)) == multiset(Live(a) + Live(r) + Live(c)) + multiset{e};
  }

  // ---- packing a list of entries into an empty block ---------------------------------------------

  function Total(es: seq<Entry>): nat { if es == [] then 0 else Need(|es[0].name|) + Total(es[1..]) }

  lemma {:induction false} TotalAppend(a: seq<Entry>, b: seq<Entry>)
    ensures Total(a + b) == Total(a) + Total(b)
  {
    if a == [] { assert a + b == b; } else {
      assert (a + b)[1..] == a[1..] + b;
      TotalAppend(a[1..], b);
    }
  }

  /** What the live entries of a tiled block need fits into it. */
  lemma {:induction false} TotalFits(rs: seq<Rec>)
    requires forall i :: 0 <= i < |rs| ==> RecOk(rs[i])
    ensures Total(Live(rs)) <= Span(rs)
  {
    if rs != [] {
      TotalFits(rs[1..]);
      if rs[0].e.ino != 0 { assert Live(rs)[1..] == Live(rs[1..]); }
    }
  }

  const EMPTY: Entry := Entry(0, 0, [])

  /** The entries as records with no slack. */
  function Short(es: seq<Entry>): (rs: seq<Rec>)
    ensures |rs| == |es|
  {
    if es == [] then [] else [Rec(Need(|es[0].name|), es[0])] + Short(es[1..])
  }

  lemma {:induction false} ShortIs(es: seq<Entry>)
    requires forall i :: 0 <= i < |es| ==> EntryOk(es[i])
    ensures Span(Short(es)) == Total(es) && Live(Short(es)) == es
    ensures forall i :: 0 <= i < |es| ==> RecOk(Short(es)[i]) && Short(es)[i].len == Used(Short(es)[i])
  {
    if es != [] {
      ShortIs(es[1..]);
      NeedMin(|es[0].name|);
      assert Short(es)[1..] == Short(es[1..]);
    }
  }

  lemma {:induction false} ShortAppend(a: seq<Entry>, b: seq<Entry>)
    ensures Short(a + b) == Short(a) + Short(b)
  {
    if a == [] { assert a + b == b; } else {
      assert (a + b)[1..] == a[1..] + b;
      ShortAppend(a[1..], b);
    }
  }

  /** The entries in order, each record as short as it can be, the slack in the last. */
  function Packed(es: seq<Entry>, end: nat): seq<Rec> {
    if es == [] then [Rec(end, EMPTY)]
    else Short(es[..|es| - 1]) + [Rec(Minus(end, Total(es[..|es| - 1])), es[|es| - 1])]
  }

  function Minus(a: nat, b: nat): nat { if b <= a then a - b else 0 }

  lemma Split1(es: seq<Entry>)
    requires es != []
    ensures es == es[..|es| - 1] + [es[|es| - 1]] && Total(es) == Total(es[..|es| - 1]) + Need(|es[|es| - 1].name|)
  {
    var a, b := es[..|es| - 1], [es[|es| - 1]];
    TotalAppend(a, b);
    assert b[1..] == [] && es == a + b;
  }

  lemma {:induction false} PackedOk(es: seq<Entry>, end: nat)
    requires Total(es) <= end && end >= 8 && forall i :: 0 <= i < |es| ==> EntryOk(es[i])
    ensures Tiled(Packed(es, end), end) && Live(Packed(es, end)) == es
  {
    hide Need, Span, Live, Short, Total;
    One(Rec(end, EMPTY));
    if es != [] {
      var a, e := es[..|es| - 1], es[|es| - 1];
      Split1(es);
      ShortIs(a);
      NeedMin(|e.name|);
      var r := Rec(Minus(end, Total(a)), e);
      One(r);
      SpanAppend(Short(a), [r]);
      LiveAppend(Short(a), [r]);
    }
  }

  lemma {:induction false} FirstFitIs(a: seq<Rec>, b: seq<Rec>, need: nat)
    requires (forall i :: 0 <= i < |a| ==> !Fits(a[i], need)) && (b != [] ==> Fits(b[0], need))
    ensures FirstFit(a + b, need) == |a|
  {
    if a == [] { assert a + b == b; } else {
      assert (a + b)[1..] == a[1..] + b;
      FirstFitIs(a[1..], b, need);
    }
  }

  /** Inserting into a packed block appends, as long as there is room in all. */
  lemma {:induction false} PackInsert(es: seq<Entry>, e: Entry, end: nat)
    requires Total(es) <= end && end >= 8 && EntryOk(e) && forall i :: 0 <= i < |es| ==> EntryOk(es[i])
    ensures HasRoom(Packed(es, end), e) <==> Total(es) + Need(|e.name|) <= end
    ensures forall i :: 0 <= i < |Packed(es, end)| ==> RecOk(Packed(es, end)[i])
    ensures Total(es) + Need(|e.name|) <= end ==> Insert(Packed(es, end), e) == Packed(es + [e], end)
  {
    hide Need, Span, Live;
    PackedOk(es, end);
    NeedMin(|e.name|);
    var need := Need(|e.name|);
    assert (es + [e])[..|es|] == es;
    if es == [] {
      var r := Rec(end, EMPTY);
      assert Packed([], end) == [r];
      if Fits(r, need) { FirstFitIs([], [r], need); } else { FirstFitIs([r], [], need); }
    } else {
      PackInsertMore(es, e, end);
    }
  }

  lemma {:induction false} PackInsertMore(es: seq<Entry>, e: Entry, end: nat)
    requires es != [] && Total(es) <= end && end >= 8 && EntryOk(e) && forall i :: 0 <= i < |es| ==> EntryOk(es[i])
    requires forall i :: 0 <= i < |Packed(es, end)| ==> RecOk(Packed(es, end)[i])
    ensures HasRoom(Packed(es, end), e) <==> Total(es) + Need(|e.name|) <= end
    ensures Total(es) + Need(|e.name|) <= end ==> Insert(Packed(es, end), e) == Packed(es + [e], end)
  {
    hide Need, Span, Live, Total, Short, FirstFit;
    var need, a, last := Need(|e.name|), es[..|es| - 1], es[|es| - 1];
    var s, r := Short(a), Rec(Minus(end, Total(a)), last);
    NeedMin(|e.name|);
    Split1(es);
    ShortIs(a);
    assert Packed(es, end) == s + [r];
    assert forall i :: 0 <= i < |s| ==> !Fits(s[i], need);
    if Fits(r, need) {
      FirstFitIs(s, [r], need);
      var out := Insert(s + [r], e);
      assert out == s + Place(r, e) by { assert (s + [r])[..|s|] == s && (s + [r])[|s| + 1..] == []; }
      ShortOne(last);
      ShortAppend(a, [last]);
      assert (es + [e])[..|es|] == es;
      assert out == Short(es) + [Rec(end - Total(es), e)];
    } else {
      FirstFitIs(s + [r], [], need);
      assert s + [r] + [] == s + [r];
    }
  }

  lemma ShortOne(e: Entry)
    ensures Short([e]) == [Rec(Need(|e.name|), e)]
  {
    assert [e][1..] == [];
  }

  // ---- sorting by hash -----------------------------------------------------------------------------

  /** An entry of the old leaf and its hash. */
  datatype Hent = Hent(hash: nat, e: Entry)

  predicate Sorted(s: seq<Hent>) { forall i, j :: 0 <= i < j < |s| ==> s[i].hash <= s[j].hash }

  /** Put an element behind those of no larger hash in a sorted list. */
  function Put(s: seq<Hent>, x: Hent): (r: seq<Hent>)
    ensures |r| == |s| + 1
  {
    if s == [] || s[|s| - 1].hash <= x.hash then s + [x] else Put(s[..|s| - 1], x) + [s[|s| - 1]]
  }

  function SortOf(s: seq<Hent>): (r: seq<Hent>)
    ensures |r| == |s|
  {
    if s == [] then [] else Put(SortOf(s[..|s| - 1]), s[|s| - 1])
  }

  lemma PutSorts(s: seq<Hent>, x: Hent)
    requires Sorted(s)
    ensures Sorted(Put(s, x)) && multiset(Put(s, x)) == multiset(s) + multiset{x}
  {
    PutBag(s, x);
    PutOrder(s, x);
  }

  lemma {:induction false} PutBag(s: seq<Hent>, x: Hent)
    ensures multiset(Put(s, x)) == multiset(s) + multiset{x}
  {
    if s != [] && s[|s| - 1].hash > x.hash {
      assert s == s[..|s| - 1] + [s[|s| - 1]];
      PutBag(s[..|s| - 1], x);
    }
  }

  lemma {:induction false} PutOrder(s: seq<Hent>, x: Hent)
    requires Sorted(s)
    ensures Sorted(Put(s, x))
    ensures Put(s, x)[|s|].hash == if s != [] && s[|s| - 1].hash > x.hash then s[|s| - 1].hash else x.hash
  {
    if s != [] && s[|s| - 1].hash > x.hash {
      var a, z := s[..|s| - 1], s[|s| - 1];
      PutOrder(a, x);
    }
  }

  lemma {:induction false} SortSorts(s: seq<Hent>)
    ensures Sorted(SortOf(s)) && multiset(SortOf(s)) == multiset(s)
  {
    if s != [] {
      SortSorts(s[..|s| - 1]);
      PutSorts(SortOf(s[..|s| - 1]), s[|s| - 1]);
      assert s == s[..|s| - 1] + [s[|s| - 1]];
    }
  }

  /** Elements with a larger hash at the end are passed over. */
  lemma {:induction false} PutPasses(a: seq<Hent>, b: seq<Hent>, x: Hent)
    requires (a == [] || a[|a| - 1].hash <= x.hash) && forall i :: 0 <= i < |b| ==> b[i].hash > x.hash
    ensures Put(a + b, x) == a + [x] + b
  {
    if b == [] {
      assert a + b == a && a + [x] + b == a + [x];
    } else {
      hide Put;
      var c, z := b[..|b| - 1], b[|b| - 1];
      PutPasses(a, c, x);
      PutStep(a + c, z, x);
      assert a + b == (a + c) + [z] && a + [x] + b == (a + [x] + c) + [z];
    }
  }

  lemma PutStep(s: seq<Hent>, z: Hent, x: Hent)
    requires z.hash > x.hash
    ensures Put(s + [z], x) == Put(s, x) + [z]
  {
    assert (s + [z])[..|s|] == s;
  }

  /** `p` is `s` with `x` put in at `j`. */
  predicate Inlaid(p: seq<Hent>, s: seq<Hent>, x: Hent, j: nat) { j <= |s| && p == s[..j] + [x] + s[j..] }

  lemma InlaidHas(p: seq<Hent>, s: seq<Hent>, x: Hent, j: nat)
    requires Inlaid(p, s, x, j)
    ensures |p| == |s| + 1 && p[j] == x && (j > 0 ==> p[j - 1] == s[j - 1])
  {
  }

  lemma InlaidSwap(p: seq<Hent>, s: seq<Hent>, x: Hent, j: nat)
    requires Inlaid(p, s, x, j) && j > 0 && |p| == |s| + 1
    ensures Inlaid(p[j - 1 := p[j]][j := p[j - 1]], s, x, j - 1)
  {
    var q := p[j - 1 := p[j]][j := p[j - 1]];
    assert q == s[..j - 1] + [x] + s[j - 1..];
  }

  lemma InlaidPut(p: seq<Hent>, s: seq<Hent>, x: Hent, j: nat)
    requires Inlaid(p, s, x, j) && (j == 0 || s[j - 1].hash <= x.hash) && forall k :: j <= k < |s| ==>
               s[k].hash > x.hash
    ensures p == Put(s, x)
  {
    hide Put;
    PutPasses(s[..j], s[j..], x);
    assert s[..j] + s[j..] == s;
  }

  /** Let element `i` sink to its place among the ones before it. */
  method Sink(h: array<Hent>, i: nat)
    requires i < h.Length
    modifies h
    ensures h[..i + 1] == Put(old(h[..i]), old(h[i])) && h[i + 1..] == old(h[i + 1..])
  {
    ghost var s, x := h[..i], h[i];
    assert Inlaid(h[..i + 1], s, x, i);
    hide Inlaid, Put;
    var j := i;
    InlaidHas(h[..i + 1], s, x, j);
    while j > 0 && h[j - 1].hash > h[j].hash
      invariant 0 <= j <= i && Inlaid(h[..i + 1], s, x, j) && h[i + 1..] == old(h[i + 1..])
      invariant h[j] == x && (j > 0 ==> h[j - 1] == s[j - 1])
      invariant forall k :: j <= k < i ==> s[k].hash > x.hash
    {
      InlaidSwap(h[..i + 1], s, x, j);
      SwapAt(h, j, i + 1);
      j := j - 1;
      InlaidHas(h[..i + 1], s, x, j);
      assert h[j] == h[..i + 1][j] && (j > 0 ==> h[j - 1] == h[..i + 1][j - 1]);
    }
    InlaidPut(h[..i + 1], s, x, j);
  }

  method SwapAt(h: array<Hent>, j: nat, n: nat)
    requires 0 < j < n <= h.Length
    modifies h
    ensures h[..n] == old(h[..n])[j - 1 := old(h[..n])[j]][j := old(h[..n])[j - 1]] && h[n..] == old(h[n..])
  {
    h[j], h[j - 1] := h[j - 1], h[j];
  }

  /** Insertion sort by hash, in place. */
  method Sort(h: array<Hent>)
    modifies h
    ensures h[..] == SortOf(old(h[..]))
  {
    ghost var s := h[..];
    if h.Length == 0 { return; }
    assert SortOf(s[..1]) == s[..1] by { assert s[..1][..0] == [] && SortOf([]) == []; }
    assert h[..1] == s[..1];
    for i := 1 to h.Length
      invariant h[..i] == SortOf(s[..i]) && h[i..] == s[i..]
    {
      assert h[i] == h[i..][0] && h[i + 1..] == h[i..][1..];
      Sink(h, i);
      assert s[..i + 1][..i] == s[..i] && s[..i + 1][i] == s[i];
    }
    assert h[..h.Length] == h[..] && s[..h.Length] == s;
  }

  // ---- splitting -----------------------------------------------------------------------------------

  function Hashed(hash: Hash, es: seq<Entry>): (s: seq<Hent>)
    ensures |s| == |es|
  {
    if es == [] then [] else [Hent(hash(es[0].name), es[0])] + Hashed(hash, es[1..])
  }

  function Ents(s: seq<Hent>): (es: seq<Entry>)
    ensures |es| == |s|
  {
    if s == [] then [] else [s[0].e] + Ents(s[1..])
  }

  predicate HashesOk(hash: Hash, s: seq<Hent>) { forall i :: 0 <= i < |s| ==> s[i].hash == hash(s[i].e.name) }

  lemma {:induction false} HashedIs(hash: Hash, es: seq<Entry>)
    ensures HashesOk(hash, Hashed(hash, es)) && Ents(Hashed(hash, es)) == es
  {
    if es != [] {
      HashedIs(hash, es[1..]);
      assert Hashed(hash, es)[1..] == Hashed(hash, es[1..]);
    }
  }

  lemma {:induction false} EntsAppend(a: seq<Hent>, b: seq<Hent>)
    ensures Ents(a + b) == Ents(a) + Ents(b)
  {
    if a == [] { assert a + b == b; } else {
      assert (a + b)[1..] == a[1..] + b;
      EntsAppend(a[1..], b);
    }
  }

  lemma EntsOne(x: Hent)
    ensures Ents([x]) == [x.e]
  {
    assert [x][1..] == [];
  }

  /** Sorting keeps the entries, what they need together, and their hashes. */
  lemma {:induction false} PutKeeps(hash: Hash, s: seq<Hent>, x: Hent)
    requires HashesOk(hash, s) && x.hash == hash(x.e.name)
    ensures HashesOk(hash, Put(s, x)) && Total(Ents(Put(s, x))) == Total(Ents(s)) + Need(|x.e.name|)
    ensures multiset(Ents(Put(s, x))) == multiset(Ents(s)) + multiset{x.e}
  {
    hide Need, Total, Ents;
    EntsOne(x);
    TotalOne(x.e);
    if s == [] || s[|s| - 1].hash <= x.hash {
      EntsAppend(s, [x]);
      TotalAppend(Ents(s), [x.e]);
    } else {
      var a, z := s[..|s| - 1], s[|s| - 1];
      assert s == a + [z];
      PutKeeps(hash, a, x);
      EntsOne(z);
      TotalOne(z.e);
      EntsAppend(a, [z]);
      EntsAppend(Put(a, x), [z]);
      TotalAppend(Ents(a), [z.e]);
      TotalAppend(Ents(Put(a, x)), [z.e]);
    }
  }

  lemma TotalOne(e: Entry)
    ensures Total([e]) == Need(|e.name|)
  {
    assert [e][1..] == [];
  }

  lemma {:induction false} SortKeeps(hash: Hash, s: seq<Hent>)
    requires HashesOk(hash, s)
    ensures HashesOk(hash, SortOf(s)) && Total(Ents(SortOf(s))) == Total(Ents(s))
    ensures multiset(Ents(SortOf(s))) == multiset(Ents(s))
  {
    hide Need, Total, Ents, Put;
    if s != [] {
      var a, z := s[..|s| - 1], s[|s| - 1];
      assert s == a + [z];
      SortKeeps(hash, a);
      PutKeeps(hash, SortOf(a), z);
      EntsAppend(a, [z]);
      EntsOne(z);
      TotalAppend(Ents(a), [z.e]);
      TotalOne(z.e);
    }
  }

  /** From the middle on, the first place where the hash changes. */
  function Advance(s: seq<Hent>, m: nat): (r: nat)
    requires m <= |s|
    ensures m <= r <= |s| && (0 < r < |s| && m > 0 ==> s[r].hash != s[r - 1].hash)
    decreases |s| - m
  {
    if 0 < m < |s| && s[m].hash == s[m - 1].hash then Advance(s, m + 1) else m
  }

  function Mid(s: seq<Hent>): (m: nat)
    ensures m <= |s|
  {
    Advance(s, |s| / 2)
  }

  predicate Splittable(s: seq<Hent>) { 0 < Mid(s) < |s| }

  function SplitKey(s: seq<Hent>): nat
    requires Splittable(s)
  {
    s[Mid(s)].hash
  }

  function Lower(s: seq<Hent>): seq<Entry> { Ents(s[..Mid(s)]) }

  function Upper(s: seq<Hent>): seq<Entry> { Ents(s[Mid(s)..]) }

  lemma {:induction false} EntsAt(s: seq<Hent>, i: nat)
    requires i < |s|
    ensures Ents(s)[i] == s[i].e
  {
    if i > 0 { EntsAt(s[1..], i - 1); }
  }

  /** Every entry is in exactly one half; hashes below the key in the lower and not below it in the
      upper, so that equal hashes stay together; and each half fits a block. */
  lemma SplitHalves(hash: Hash, s: seq<Hent>)
    requires Sorted(s) && HashesOk(hash, s) && Splittable(s)
    ensures multiset(Lower(s)) + multiset(Upper(s)) == multiset(Ents(s)) && Lower(s) != [] && Upper(s) != []
    ensures forall i :: 0 <= i < |Lower(s)| ==> hash(Lower(s)[i].name) < SplitKey(s)
    ensures forall i :: 0 <= i < |Upper(s)| ==> hash(Upper(s)[i].name) >= SplitKey(s)
    ensures Total(Lower(s)) + Total(Upper(s)) == Total(Ents(s))
  {
    hide Ents, Total;
    var m := Mid(s);
    assert s == s[..m] + s[m..];
    EntsAppend(s[..m], s[m..]);
    TotalAppend(Lower(s), Upper(s));
    forall i | 0 <= i < |Lower(s)| ensures hash(Lower(s)[i].name) < SplitKey(s) { EntsAt(s[..m], i); }
    forall i | 0 <= i < |Upper(s)| ensures hash(Upper(s)[i].name) >= SplitKey(s) { EntsAt(s[m..], i); }
  }

  // ---- the index -----------------------------------------------------------------------------------

  /** An index entry: names hashed from `hash` on are in block `blk`. */
  datatype Slot = Slot(hash: nat, blk: nat)

  /** The first entry covers everything from 0. */
  function Key(ix: seq<Slot>, i: nat): nat
    requires i < |ix|
  {
    if i == 0 then 0 else ix[i].hash
  }

  predicate InRange(ix: seq<Slot>, i: nat, h: nat)
    requires i < |ix|
  {
    Key(ix, i) <= h && (i + 1 < |ix| ==> h < Key(ix, i + 1))
  }

  predicate IndexOk(ix: seq<Slot>) {
    |ix| > 0 && forall i, j :: 0 <= i < j < |ix| ==> Key(ix, i) < Key(ix, j) && ix[i].blk != ix[j].blk
  }

  predicate LeafOk(hash: Hash, ix: seq<Slot>, i: nat, rs: seq<Rec>, end: nat)
    requires i < |ix|
  {
    Tiled(rs, end) && forall k :: 0 <= k < |Live(rs)| ==> InRange(ix, i, hash(Live(rs)[k].name))
  }

  ghost predicate DirOk(hash: Hash, ix: seq<Slot>, blocks: map<nat, seq<Rec>>, end: nat) {
    && IndexOk(ix) && end >= 8
    && forall i :: 0 <= i < |ix| ==> ix[i].blk in blocks && LeafOk(hash, ix, i, blocks[ix[i].blk], end)
  }

  /** The last entry whose hash is not above, or the first. */
  function Descend(ix: seq<Slot>, h: nat): (i: nat)
    requires |ix| > 0
    ensures i < |ix| && (i == 0 || ix[i].hash <= h) && forall j :: i < j < |ix| ==> ix[j].hash > h
  {
    if |ix| == 1 || ix[|ix| - 1].hash <= h then |ix| - 1 else Descend(ix[..|ix| - 1], h)
  }

  lemma DescendRange(ix: seq<Slot>, h: nat)
    requires IndexOk(ix)
    ensures InRange(ix, Descend(ix, h), h)
  {
  }

  /** The range a hash is in is where the descent goes: every entry is found in its leaf. */
  lemma DescendFinds(ix: seq<Slot>, h: nat, i: nat)
    requires IndexOk(ix) && i < |ix| && InRange(ix, i, h)
    ensures Descend(ix, h) == i
  {
  }

  function LiveAt(blocks: map<nat, seq<Rec>>, b: nat): seq<Entry> { if b in blocks then Live(blocks[b]) else [] }

  /** All entries of the directory. */
  function All(ix: seq<Slot>, blocks: map<nat, seq<Rec>>): multiset<Entry> {
    if ix == [] then multiset{} else multiset(LiveAt(blocks, ix[0].blk)) + All(ix[1..], blocks)
  }

  lemma {:induction false} AllAppend(a: seq<Slot>, b: seq<Slot>, blocks: map<nat, seq<Rec>>)
    ensures All(a + b, blocks) == All(a, blocks) + All(b, blocks)
  {
    if a == [] { assert a + b == b; } else {
      assert (a + b)[1..] == a[1..] + b;
      AllAppend(a[1..], b, blocks);
    }
  }

  lemma {:induction false} AllFrame(ix: seq<Slot>, blocks: map<nat, seq<Rec>>, blocks': map<nat, seq<Rec>>)
    requires forall i :: 0 <= i < |ix| ==> LiveAt(blocks, ix[i].blk) == LiveAt(blocks', ix[i].blk)
    ensures All(ix, blocks) == All(ix, blocks')
  {
    if ix != [] { AllFrame(ix[1..], blocks, blocks'); }
  }

  lemma AllOne(s: Slot, blocks: map<nat, seq<Rec>>)
    ensures All([s], blocks) == multiset(LiveAt(blocks, s.blk))
  {
    assert [s][1..] == [];
  }

  lemma AllAround(a: seq<Slot>, s: Slot, c: seq<Slot>, blocks: map<nat, seq<Rec>>)
    ensures All(a + [s] + c, blocks) == All(a, blocks) + multiset(LiveAt(blocks, s.blk)) + All(c, blocks)
  {
    hide All;
    AllAppend(a + [s], c, blocks);
    AllAppend(a, [s], blocks);
    AllOne(s, blocks);
  }

  lemma {:induction false} LeafHolding(ix: seq<Slot>, blocks: map<nat, seq<Rec>>, e: Entry) returns (i: nat)
    requires e in All(ix, blocks)
    ensures i < |ix| && e in LiveAt(blocks, ix[i].blk)
  {
    hide LiveAt;
    if e in multiset(LiveAt(blocks, ix[0].blk)) {
      i := 0;
    } else {
      i := LeafHolding(ix[1..], blocks, e);
      i := i + 1;
    }
  }

  /** Every entry of the directory is in the leaf its hash leads to. */
  lemma Findable(hash: Hash, ix: seq<Slot>, blocks: map<nat, seq<Rec>>, end: nat, e: Entry)
    requires DirOk(hash, ix, blocks, end) && e in All(ix, blocks)
    ensures e in LiveAt(blocks, ix[Descend(ix, hash(e.name))].blk)
  {
    hide All, LiveAt, Descend;
    var i := LeafHolding(ix, blocks, e);
    LiveInRange(hash, ix, blocks, end, i, e);
    DescendFinds(ix, hash(e.name), i);
  }

  /** New contents for one leaf. */
  lemma LeafChanged(hash: Hash, ix: seq<Slot>, blocks: map<nat, seq<Rec>>, end: nat, p: nat, rs: seq<Rec>, e: Entry)
    requires DirOk(hash, ix, blocks, end) && p < |ix| && EntryOk(e) && InRange(ix, p, hash(e.name))
    requires Tiled(rs, end) && multiset(Live(rs)) == multiset(LiveAt(blocks, ix[p].blk)) + multiset{e}
    ensures DirOk(hash, ix, blocks[ix[p].blk := rs], end)
    ensures All(ix, blocks[ix[p].blk := rs]) == All(ix, blocks) + multiset{e}
  {
    hide Live, Tiled, InRange, All;
    var blocks' := blocks[ix[p].blk := rs];
    var a, c := ix[..p], ix[p + 1..];
    assert ix == a + [ix[p]] + c;
    AllAround(a, ix[p], c, blocks);
    AllAround(a, ix[p], c, blocks');
    assert forall i :: 0 <= i < |a| ==> a[i] == ix[i];
    AllFrame(a, blocks, blocks');
    AllFrame(c, blocks, blocks');
    forall k | 0 <= k < |Live(rs)| ensures InRange(ix, p, hash(Live(rs)[k].name)) {
      MemberOf(Live(rs), LiveAt(blocks, ix[p].blk), e, k);
    }
  }

  /** An element of the larger list is the added one or in the smaller. */
  lemma MemberOf(xs: seq<Entry>, ys: seq<Entry>, e: Entry, k: nat)
    requires multiset(xs) == multiset(ys) + multiset{e} && k < |xs|
    ensures xs[k] == e || xs[k] in ys
  {
    assert xs[k] in multiset(xs);
  }

  function SplitIndex(ix: seq<Slot>, p: nat, key: nat, nb: nat): seq<Slot>
    requires p < |ix|
  {
    ix[..p + 1] + [Slot(key, nb)] + ix[p + 1..]
  }

  /** The index with the new entry behind the one we came through, and the ranges it then gives. */
  lemma SplitIndexOk(ix: seq<Slot>, p: nat, key: nat, nb: nat)
    requires IndexOk(ix) && p < |ix| && Key(ix, p) < key && InRange(ix, p, key)
    requires forall i :: 0 <= i < |ix| ==> ix[i].blk != nb
    ensures IndexOk(SplitIndex(ix, p, key, nb))
  {
    var out := SplitIndex(ix, p, key, nb);
    forall i, j | 0 <= i < j < |out| ensures Key(out, i) < Key(out, j) && out[i].blk != out[j].blk {
      SplitKeys(ix, p, key, nb, i);
      SplitKeys(ix, p, key, nb, j);
    }
  }

  lemma SplitKeys(ix: seq<Slot>, p: nat, key: nat, nb: nat, i: nat)
    requires p < |ix| && i <= |ix|
    ensures i <= p ==> SplitIndex(ix, p, key, nb)[i] == ix[i] && Key(SplitIndex(ix, p, key, nb), i) == Key(ix, i)
    ensures i == p + 1 ==> SplitIndex(ix, p, key, nb)[i] == Slot(key, nb) && Key(SplitIndex(ix, p, key, nb), i) == key
    ensures i > p + 1 ==>
              SplitIndex(ix, p, key, nb)[i] == ix[i - 1] && Key(SplitIndex(ix, p, key, nb), i) == Key(ix, i - 1)
  {
  }

  /** Which range of the new index a hash in a range of the old one is in. */
  lemma SplitRange(ix: seq<Slot>, p: nat, key: nat, nb: nat, i: nat, h: nat)
    requires IndexOk(ix) && p < |ix| && Key(ix, p) < key && InRange(ix, p, key) && i < |ix| && InRange(ix, i, h)
    ensures i < p || (i == p && h < key) ==> InRange(SplitIndex(ix, p, key, nb), i, h)
    ensures i > p || (i == p && h >= key) ==> InRange(SplitIndex(ix, p, key, nb), i + 1, h)
  {
    hide SplitIndex;
    SplitKeys(ix, p, key, nb, i);
    SplitKeys(ix, p, key, nb, i + 1);
    SplitLength(ix, p, key, nb);
    if i + 2 <= |ix| { SplitKeys(ix, p, key, nb, i + 2); }
  }

  lemma SplitLength(ix: seq<Slot>, p: nat, key: nat, nb: nat)
    requires p < |ix|
    ensures |SplitIndex(ix, p, key, nb)| == |ix| + 1
  {
  }

  /** Both halves in place: ranges, tiling and entries. */
  lemma SplitDir(hash: Hash, ix: seq<Slot>, blocks: map<nat, seq<Rec>>, end: nat, p: nat, s: seq<Hent>, nb: nat)
    requires DirOk(hash, ix, blocks, end) && p < |ix| && nb !in blocks
    requires s == SortOf(Hashed(hash, LiveAt(blocks, ix[p].blk))) && Splittable(s)
    ensures DirOk(hash, SplitIndex(ix, p, SplitKey(s), nb),
                  blocks[ix[p].blk := Packed(Lower(s), end)][nb := Packed(Upper(s), end)], end)
    ensures All(SplitIndex(ix, p, SplitKey(s), nb),
                blocks[ix[p].blk := Packed(Lower(s), end)][nb := Packed(Upper(s), end)])
            == All(ix, blocks)
  {
    hide Live, SortOf, Hashed, Packed, Lower, Upper, SplitKey, SplitIndex, InRange, All, Tiled, Splittable, IndexOk,
         Key;
    assert LeafOk(hash, ix, p, blocks[ix[p].blk], end);
    HalvesFit(hash, blocks[ix[p].blk], end, s);
    SplitKeyRange(hash, ix, blocks, end, p, s);
    SplitIndexOk(ix, p, SplitKey(s), nb);
    SplitLeaves(hash, ix, blocks, end, p, s, nb);
    SplitAll(hash, ix, blocks, end, p, s, nb);
  }

  /** The halves pack into a block each, and between them hold the leaf's entries. */
  lemma HalvesFit(hash: Hash, rs: seq<Rec>, end: nat, s: seq<Hent>)
    requires Tiled(rs, end) && end >= 8 && s == SortOf(Hashed(hash, Live(rs))) && Splittable(s)
    ensures Sorted(s) && HashesOk(hash, s) && Total(Lower(s)) <= end && Total(Upper(s)) <= end
    ensures multiset(Lower(s)) + multiset(Upper(s)) == multiset(Live(rs))
    ensures Tiled(Packed(Lower(s), end), end) && Live(Packed(Lower(s), end)) == Lower(s)
    ensures Tiled(Packed(Upper(s), end), end) && Live(Packed(Upper(s), end)) == Upper(s)
    ensures (forall i :: 0 <= i < |Lower(s)| ==> EntryOk(Lower(s)[i]))
    ensures (forall i :: 0 <= i < |Upper(s)| ==> EntryOk(Upper(s)[i]))
  {
    hide Live, Packed, Total, SortOf, Hashed, Mid, Ents, Lower, Upper, SplitKey, Sorted, HashesOk, Splittable, Span;
    var es := Live(rs);
    TotalFits(rs);
    LiveEntries(rs);
    HashedIs(hash, es);
    SortSorts(Hashed(hash, es));
    SortKeeps(hash, Hashed(hash, es));
    SplitHalves(hash, s);
    forall i | 0 <= i < |Lower(s)| ensures EntryOk(Lower(s)[i]) { InMultiset(Lower(s), Upper(s), es, i); }
    forall i | 0 <= i < |Upper(s)| ensures EntryOk(Upper(s)[i]) { InMultiset(Upper(s), Lower(s), es, i); }
    hide Tiled;
    PackedOk(Lower(s), end);
    PackedOk(Upper(s), end);
  }

  lemma InMultiset(a: seq<Entry>, b: seq<Entry>, es: seq<Entry>, i: nat)
    requires multiset(a) + multiset(b) == multiset(es) && i < |a|
    ensures a[i] in es
  {
    assert a[i] in multiset(a);
    assert a[i] in multiset(es);
  }

  lemma {:induction false} LiveEntries(rs: seq<Rec>)
    ensures forall i :: 0 <= i < |Live(rs)| ==> EntryOk(Live(rs)[i])
  {
    if rs != [] { LiveEntries(rs[1..]); }
  }

  lemma LiveInRange(hash: Hash, ix: seq<Slot>, blocks: map<nat, seq<Rec>>, end: nat, p: nat, e: Entry)
    requires DirOk(hash, ix, blocks, end) && p < |ix| && e in LiveAt(blocks, ix[p].blk)
    ensures InRange(ix, p, hash(e.name))
  {
    hide InRange, Live, Tiled;
    assert LeafOk(hash, ix, p, blocks[ix[p].blk], end);
    var k :| 0 <= k < |LiveAt(blocks, ix[p].blk)| && LiveAt(blocks, ix[p].blk)[k] == e;
  }

  lemma SplitKeyRange(hash: Hash, ix: seq<Slot>, blocks: map<nat, seq<Rec>>, end: nat, p: nat, s: seq<Hent>)
    requires DirOk(hash, ix, blocks, end) && p < |ix| && Sorted(s) && HashesOk(hash, s) && Splittable(s)
    requires multiset(Lower(s)) + multiset(Upper(s)) == multiset(LiveAt(blocks, ix[p].blk))
    ensures Key(ix, p) < SplitKey(s) && InRange(ix, p, SplitKey(s))
  {
    hide Live, DirOk;
    SplitHalves(hash, s);
    var es := LiveAt(blocks, ix[p].blk);
    EntsAt(s[Mid(s)..], 0);
    InMultiset(Upper(s), Lower(s), es, 0);
    LiveInRange(hash, ix, blocks, end, p, Upper(s)[0]);
    InMultiset(Lower(s), Upper(s), es, 0);
    LiveInRange(hash, ix, blocks, end, p, Lower(s)[0]);
  }

  lemma SplitLeaves(hash: Hash, ix: seq<Slot>, blocks: map<nat, seq<Rec>>, end: nat, p: nat, s: seq<Hent>, nb: nat)
    requires DirOk(hash, ix, blocks, end) && p < |ix| && nb !in blocks && Sorted(s) && HashesOk(hash, s)
    requires Splittable(s)
    requires multiset(Lower(s)) + multiset(Upper(s)) == multiset(LiveAt(blocks, ix[p].blk))
    requires Key(ix, p) < SplitKey(s) && InRange(ix, p, SplitKey(s))
    requires Tiled(Packed(Lower(s), end), end) && Live(Packed(Lower(s), end)) == Lower(s)
    requires Tiled(Packed(Upper(s), end), end) && Live(Packed(Upper(s), end)) == Upper(s)
    ensures var ix' := SplitIndex(ix, p, SplitKey(s), nb);
            var blocks' := blocks[ix[p].blk := Packed(Lower(s), end)][nb := Packed(Upper(s), end)];
            forall i :: 0 <= i < |ix'| ==> ix'[i].blk in blocks' && LeafOk(hash, ix', i, blocks'[ix'[i].blk], end)
  {
    SplitHalves(hash, s);
    hide DirOk, Live, Packed, Tiled, SplitIndex, Lower, Upper, SplitKey, Splittable, Sorted, HashesOk, Key, InRange,
         LeafOk;
    var ix' := SplitIndex(ix, p, SplitKey(s), nb);
    var blocks' := blocks[ix[p].blk := Packed(Lower(s), end)][nb := Packed(Upper(s), end)];
    forall i | 0 <= i < |ix'| ensures ix'[i].blk in blocks' && LeafOk(hash, ix', i, blocks'[ix'[i].blk], end) {
      SplitLeafAt(hash, ix, blocks, end, p, SplitKey(s), nb, Packed(Lower(s), end), Packed(Upper(s), end), i);
    }
  }

  lemma SplitLeafAt(hash: Hash, ix: seq<Slot>, blocks: map<nat, seq<Rec>>, end: nat, p: nat, key: nat, nb: nat,
                    lower: seq<Rec>, upper: seq<Rec>, i: nat)
    requires DirOk(hash, ix, blocks, end) && p < |ix| && nb !in blocks && i < |SplitIndex(ix, p, key, nb)|
    requires multiset(Live(lower)) + multiset(Live(upper)) == multiset(LiveAt(blocks, ix[p].blk))
    requires Key(ix, p) < key && InRange(ix, p, key) && Tiled(lower, end) && Tiled(upper, end)
    requires forall k :: 0 <= k < |Live(lower)| ==> hash(Live(lower)[k].name) < key
    requires forall k :: 0 <= k < |Live(upper)| ==> hash(Live(upper)[k].name) >= key
    ensures var ix' := SplitIndex(ix, p, key, nb);
            var blocks' := blocks[ix[p].blk := lower][nb := upper];
            ix'[i].blk in blocks' && LeafOk(hash, ix', i, blocks'[ix'[i].blk], end)
  {
    hide DirOk, Live, Tiled, SplitIndex, Key, InRange, LeafOk, LiveAt;
    SplitLength(ix, p, key, nb);
    SplitKeys(ix, p, key, nb, i);
    if i == p {
      BlockThere(hash, ix, blocks, end, p);
      HalfLeaf(hash, ix, blocks, end, p, key, nb, lower, upper, true);
    } else if i == p + 1 {
      HalfLeaf(hash, ix, blocks, end, p, key, nb, upper, lower, false);
    } else {
      OtherLeaf(hash, ix, blocks, end, p, key, nb, i);
    }
  }

  /** Either half is a leaf of the new index. */
  lemma HalfLeaf(hash: Hash, ix: seq<Slot>, blocks: map<nat, seq<Rec>>, end: nat, p: nat, key: nat, nb: nat,
                 half: seq<Rec>, other: seq<Rec>, low: bool)
    requires DirOk(hash, ix, blocks, end) && p < |ix| && Key(ix, p) < key && InRange(ix, p, key) && Tiled(half, end)
    requires multiset(Live(half)) + multiset(Live(other)) == multiset(LiveAt(blocks, ix[p].blk))
    requires forall k :: 0 <= k < |Live(half)| ==> (hash(Live(half)[k].name) < key <==> low)
    ensures |SplitIndex(ix, p, key, nb)| == |ix| + 1
    ensures LeafOk(hash, SplitIndex(ix, p, key, nb), if low then p else p + 1, half, end)
  {
    hide DirOk, Live, Tiled, SplitIndex, Key, InRange, LiveAt;
    HalfInRange(hash, ix, blocks, end, p, key, nb, Live(half), Live(other), low);
  }

  lemma BlockThere(hash: Hash, ix: seq<Slot>, blocks: map<nat, seq<Rec>>, end: nat, p: nat)
    requires DirOk(hash, ix, blocks, end) && p < |ix|
    ensures ix[p].blk in blocks
  {
  }

  /** The entries of one half are in the range of its leaf. */
  lemma HalfInRange(hash: Hash, ix: seq<Slot>, blocks: map<nat, seq<Rec>>, end: nat, p: nat, key: nat, nb: nat,
                    half: seq<Entry>, other: seq<Entry>, low: bool)
    requires DirOk(hash, ix, blocks, end) && p < |ix| && Key(ix, p) < key && InRange(ix, p, key)
    requires multiset(half) + multiset(other) == multiset(LiveAt(blocks, ix[p].blk))
    requires forall k :: 0 <= k < |half| ==> (hash(half[k].name) < key <==> low)
    ensures |SplitIndex(ix, p, key, nb)| == |ix| + 1
    ensures forall k :: 0 <= k < |half| ==>
              InRange(SplitIndex(ix, p, key, nb), if low then p else p + 1, hash(half[k].name))
  {
    hide DirOk, InRange, SplitIndex, Key;
    SplitLength(ix, p, key, nb);
    forall k | 0 <= k < |half|
      ensures InRange(SplitIndex(ix, p, key, nb), if low then p else p + 1, hash(half[k].name))
    {
      InMultiset(half, other, LiveAt(blocks, ix[p].blk), k);
      LiveInRange(hash, ix, blocks, end, p, half[k]);
      IndexIsOk(hash, ix, blocks, end);
      SplitRange(ix, p, key, nb, p, hash(half[k].name));
    }
  }

  lemma IndexIsOk(hash: Hash, ix: seq<Slot>, blocks: map<nat, seq<Rec>>, end: nat)
    requires DirOk(hash, ix, blocks, end)
    ensures IndexOk(ix)
  {
  }

  lemma OtherLeaf(hash: Hash, ix: seq<Slot>, blocks: map<nat, seq<Rec>>, end: nat, p: nat, key: nat, nb: nat, i: nat)
    requires DirOk(hash, ix, blocks, end) && p < |ix| && nb !in blocks && i <= |ix| && i != p && i != p + 1
    requires Key(ix, p) < key && InRange(ix, p, key)
    ensures i < |SplitIndex(ix, p, key, nb)|
    ensures SplitIndex(ix, p, key, nb)[i].blk in blocks && SplitIndex(ix, p, key, nb)[i].blk != ix[p].blk
    ensures LeafOk(hash, SplitIndex(ix, p, key, nb), i, blocks[SplitIndex(ix, p, key, nb)[i].blk], end)
  {
    hide Live, Tiled, SplitIndex;
    SplitLength(ix, p, key, nb);
    SplitKeys(ix, p, key, nb, i);
    var j := if i < p then i else i - 1;
    assert LeafOk(hash, ix, j, blocks[ix[j].blk], end);
    var es := Live(blocks[ix[j].blk]);
    forall k | 0 <= k < |es| ensures InRange(SplitIndex(ix, p, key, nb), i, hash(es[k].name)) {
      SplitRange(ix, p, key, nb, j, hash(es[k].name));
    }
  }

  lemma BlocksApart(ix: seq<Slot>, i: nat, p: nat)
    requires IndexOk(ix) && i < |ix| && p < |ix| && i != p
    ensures ix[i].blk != ix[p].blk
  {
  }

  lemma SplitAll(hash: Hash, ix: seq<Slot>, blocks: map<nat, seq<Rec>>, end: nat, p: nat, s: seq<Hent>, nb: nat)
    requires DirOk(hash, ix, blocks, end) && p < |ix| && nb !in blocks && Splittable(s)
    requires multiset(Lower(s)) + multiset(Upper(s)) == multiset(LiveAt(blocks, ix[p].blk))
    requires Live(Packed(Lower(s), end)) == Lower(s) && Live(Packed(Upper(s), end)) == Upper(s)
    ensures All(SplitIndex(ix, p, SplitKey(s), nb),
                blocks[ix[p].blk := Packed(Lower(s), end)][nb := Packed(Upper(s), end)])
            == All(ix, blocks)
  {
    hide Live, Packed, All, Lower, Upper, SplitKey, Splittable, LeafOk, IndexOk;
    forall i | 0 <= i < |ix| && i != p ensures ix[i].blk != ix[p].blk { BlocksApart(ix, i, p); }
    assert forall i :: 0 <= i < |ix| ==> ix[i].blk in blocks;
    hide DirOk;
    var blocks' := blocks[ix[p].blk := Packed(Lower(s), end)][nb := Packed(Upper(s), end)];
    var a, c, n := ix[..p], ix[p + 1..], Slot(SplitKey(s), nb);
    assert ix == a + [ix[p]] + c && SplitIndex(ix, p, SplitKey(s), nb) == (a + [ix[p]]) + [n] + c;
    AllAround(a, ix[p], c, blocks);
    AllAround(a + [ix[p]], n, c, blocks');
    AllAppend(a, [ix[p]], blocks');
    AllOne(ix[p], blocks');
    assert forall i :: 0 <= i < |a| ==> a[i] == ix[i];
    assert forall i :: 0 <= i < |c| ==> c[i] == ix[p + 1 + i];
    AllFrame(a, blocks, blocks');
    AllFrame(c, blocks, blocks');
  }

  // ---- the driver's steps ----------------------------------------------------------------------------

  /** leaf_insert: the first record with room, if any. */
  method LeafInsert(rs: seq<Rec>, e: Entry) returns (ok: bool, out: seq<Rec>)
    requires forall i :: 0 <= i < |rs| ==> RecOk(rs[i])
    ensures ok == HasRoom(rs, e) && out == Insert(rs, e)
  {
    hide Need, Place;
    var need := Need(|e.name|);
    var i := 0;
    while i < |rs|
      invariant i <= |rs| && forall k :: 0 <= k < i ==> !Fits(rs[k], need)
    {
      if rs[i].len >= Used(rs[i]) + need {
        assert rs == rs[..i] + rs[i..];
        FirstFitIs(rs[..i], rs[i..], need);
        return true, rs[..i] + Place(rs[i], e) + rs[i + 1..];
      }
      i := i + 1;
    }
    assert rs + [] == rs;
    FirstFitIs(rs, [], need);
    return false, rs;
  }

  /** Entries with names: at most one for every twelve bytes, so that the scratch array of one more than
      a twelfth of the block holds them. */
  lemma {:induction false} FewEntries(rs: seq<Rec>)
    requires forall i :: 0 <= i < |rs| ==> RecOk(rs[i]) && (rs[i].e.ino != 0 ==> rs[i].e.name != [])
    ensures 12 * |Live(rs)| <= Span(rs)
  {
    if rs != [] { FewEntries(rs[1..]); }
  }

  /** Without names there can be more: 128 records of eight bytes in a block of 1024. */
  lemma NamelessEntries()
    ensures Tiled(Nameless(128), 1024) && |Live(Nameless(128))| > 1024 / 12 + 1
  {
    NamelessIs(128);
  }

  function Nameless(n: nat): seq<Rec> { if n == 0 then [] else [Rec(8, Entry(1, 1, []))] + Nameless(n - 1) }

  lemma {:induction false} NamelessIs(n: nat)
    ensures |Live(Nameless(n))| == n && Tiled(Nameless(n), 8 * n)
  {
    if n > 0 { NamelessIs(n - 1); }
  }

  /** The live entries of a leaf with their hashes. */
  method Collect(hash: Hash, rs: seq<Rec>) returns (h: array<Hent>)
    ensures fresh(h) && h[..] == Hashed(hash, Live(rs))
  {
    var s: seq<Hent> := [];
    for i := 0 to |rs|
      invariant s == Hashed(hash, Live(rs[..i]))
    {
      assert rs[..i + 1] == rs[..i] + [rs[i]];
      LiveAppend(rs[..i], [rs[i]]);
      One(rs[i]);
      if rs[i].e.ino != 0 {
        HashedAppend(hash, Live(rs[..i]), rs[i].e);
        s := s + [Hent(hash(rs[i].e.name), rs[i].e)];
      } else {
        assert Live(rs[..i]) + [] == Live(rs[..i]);
      }
    }
    assert rs[..|rs|] == rs;
    h := new Hent[|s|](i requires 0 <= i < |s| => s[i]);
  }

  lemma {:induction false} HashedAppend(hash: Hash, es: seq<Entry>, e: Entry)
    ensures Hashed(hash, es + [e]) == Hashed(hash, es) + [Hent(hash(e.name), e)]
  {
    if es == [] {
      assert ([] + [e])[1..] == [];
    } else {
      assert (es + [e])[1..] == es[1..] + [e];
      HashedAppend(hash, es[1..], e);
    }
  }

  /** The middle, moved on until the hash changes. */
  method FindMid(h: array<Hent>) returns (mid: nat)
    ensures mid == Mid(h[..])
  {
    mid := h.Length / 2;
    while 0 < mid < h.Length && h[mid].hash == h[mid - 1].hash
      invariant mid <= h.Length && Advance(h[..], mid) == Mid(h[..])
      decreases h.Length - mid
    {
      mid := mid + 1;
    }
  }

  lemma PrefixTotal(s: seq<Hent>, i: nat)
    requires i < |s|
    ensures Ents(s[..i + 1]) == Ents(s[..i]) + [s[i].e]
    ensures Total(Ents(s[..i])) + Need(|s[i].e.name|) <= Total(Ents(s))
  {
    hide Need, Total, Ents;
    assert s[..i + 1] == s[..i] + [s[i]] && s == s[..i + 1] + s[i + 1..];
    EntsAppend(s[..i], [s[i]]);
    EntsOne(s[i]);
    EntsAppend(s[..i + 1], s[i + 1..]);
    TotalAppend(Ents(s[..i + 1]), Ents(s[i + 1..]));
    TotalAppend(Ents(s[..i]), [s[i].e]);
    TotalOne(s[i].e);
  }

  /** Pack a run of entries into an empty leaf. */
  method Pack(s: seq<Hent>, end: nat) returns (leaf: seq<Rec>)
    requires end >= 8 && Total(Ents(s)) <= end && forall i :: 0 <= i < |s| ==> EntryOk(s[i].e)
    ensures leaf == Packed(Ents(s), end)
  {
    hide Need, Total, Ents, Packed, Insert, HasRoom;
    PackNone(end);
    leaf := [Rec(end, EMPTY)];
    for i := 0 to |s|
      invariant leaf == Packed(Ents(s[..i]), end)
    {
      PrefixTotal(s, i);
      PrefixOk(s, i);
      PackInsert(Ents(s[..i]), s[i].e, end);
      var ok;
      ok, leaf := LeafInsert(leaf, s[i].e);
    }
    assert s[..|s|] == s;
  }

  lemma PackNone(end: nat)
    ensures Packed(Ents([]), end) == [Rec(end, EMPTY)]
  {
  }

  lemma PrefixOk(s: seq<Hent>, i: nat)
    requires i <= |s| && forall k :: 0 <= k < |s| ==> EntryOk(s[k].e)
    ensures forall k :: 0 <= k < |Ents(s[..i])| ==> EntryOk(Ents(s[..i])[k])
  {
    hide Ents;
    forall k | 0 <= k < |Ents(s[..i])| ensures EntryOk(Ents(s[..i])[k]) { EntsAt(s[..i], k); }
  }

  function Half(hash: Hash, s: seq<Hent>, e: Entry): seq<Entry>
    requires Splittable(s)
  {
    if hash(e.name) < SplitKey(s) then Lower(s) else Upper(s)
  }

  function SortedLeaf(hash: Hash, rs: seq<Rec>): seq<Hent> { SortOf(Hashed(hash, Live(rs))) }

  /** Whether the new name ends up in the directory: its leaf has room, or after the split its half has. */
  predicate Stored(hash: Hash, rs: seq<Rec>, e: Entry, end: nat) {
    || HasRoom(rs, e)
    || (Splittable(SortedLeaf(hash, rs)) && Total(Half(hash, SortedLeaf(hash, rs), e)) + Need(|e.name|) <= end)
  }

  /** A split can leave no room: three long names fill most of a half of a 1024-byte block, and the new
      one, as long and hashed above them, belongs with them. */
  lemma SplitCanLoseName(hash: Hash, es: seq<Entry>, e: Entry)
    requires |es| == 6 && EntryOk(e) && 253 <= |e.name| <= 255 && forall i :: 0 <= i < 6 ==> EntryOk(es[i])
    requires forall i :: 0 <= i < 3 ==> 65 <= |es[i].name| <= 68
    requires forall i :: 3 <= i < 6 ==> 253 <= |es[i].name| <= 255
    requires forall i, j :: 0 <= i < j < 6 ==> hash(es[i].name) <= hash(es[j].name)
    requires hash(es[2].name) < hash(es[3].name) <= hash(e.name)
    ensures Tiled(Packed(es, 1024), 1024) && Live(Packed(es, 1024)) == es
    ensures Splittable(SortedLeaf(hash, Packed(es, 1024))) && !Stored(hash, Packed(es, 1024), e, 1024)
  {
    var s := Hashed(hash, es);
    SixNeed(es);
    PackedOk(es, 1024);
    PackInsert(es, e, 1024);
    HashedIs(hash, es);
    forall i | 0 <= i < 6 ensures s[i].e == es[i] && s[i].hash == hash(es[i].name) { EntsAt(s, i); }
    SortedStays(s);
    hide Ents, Total, Packed, SortOf, Hashed, HasRoom;
    assert Mid(s) == 3;
    var u := s[3..];
    forall i | 0 <= i < 3 ensures Ents(u)[i] == es[3 + i] { EntsAt(u, i); }
    assert Upper(s) == es[3..];
  }

  lemma SixNeed(es: seq<Entry>)
    requires |es| == 6 && forall i :: 0 <= i < 3 ==> 65 <= |es[i].name| <= 68
    requires forall i :: 3 <= i < 6 ==> 253 <= |es[i].name| <= 255
    ensures Total(es) == 1020 && Total(es[3..]) == 792
  {
    ThreeNeed(es[..3], 76);
    ThreeNeed(es[3..], 264);
    assert es == es[..3] + es[3..];
    TotalAppend(es[..3], es[3..]);
  }

  lemma ThreeNeed(es: seq<Entry>, n: nat)
    requires |es| == 3 && forall i :: 0 <= i < 3 ==> Need(|es[i].name|) == n
    ensures Total(es) == 3 * n
  {
    hide Need;
    assert es == [es[0]] + [es[1]] + [es[2]];
    TotalAppend([es[0]] + [es[1]], [es[2]]);
    TotalAppend([es[0]], [es[1]]);
    TotalOne(es[0]);
    TotalOne(es[1]);
    TotalOne(es[2]);
  }

  lemma {:induction false} SortedStays(s: seq<Hent>)
    requires Sorted(s)
    ensures SortOf(s) == s
  {
    if s != [] { SortedStays(s[..|s| - 1]); }
  }

  lemma LastOf(ix: seq<Slot>, h: nat, p: nat)
    requires p < |ix| && (p == 0 || ix[p].hash <= h) && forall j :: p < j < |ix| ==> ix[j].hash > h
    ensures p == Descend(ix, h)
  {
  }

  lemma LeafTiled(hash: Hash, ix: seq<Slot>, blocks: map<nat, seq<Rec>>, end: nat, p: nat)
    requires DirOk(hash, ix, blocks, end) && p < |ix|
    ensures ix[p].blk in blocks && Tiled(blocks[ix[p].blk], end) && IndexOk(ix) && end >= 8
    ensures forall i :: 0 <= i < |blocks[ix[p].blk]| ==> RecOk(blocks[ix[p].blk][i])
  {
    hide Live, IndexOk, Span;
    assert LeafOk(hash, ix, p, blocks[ix[p].blk], end);
  }

  lemma SplittableIs(s: seq<Hent>)
    ensures Splittable(s) <==> 0 < Mid(s) < |s|
  {
  }

  lemma HalvesAre(s: seq<Hent>)
    requires Splittable(s)
    requires (forall i :: 0 <= i < |Lower(s)| ==> EntryOk(Lower(s)[i]))
    requires (forall i :: 0 <= i < |Upper(s)| ==> EntryOk(Upper(s)[i]))
    ensures Ents(s[..Mid(s)]) == Lower(s) && Ents(s[Mid(s)..]) == Upper(s)
    ensures forall i :: 0 <= i < |s[..Mid(s)]| ==> EntryOk(s[..Mid(s)][i].e)
    ensures forall i :: 0 <= i < |s[Mid(s)..]| ==> EntryOk(s[Mid(s)..][i].e)
  {
    hide Ents;
    var a, b := s[..Mid(s)], s[Mid(s)..];
    forall i | 0 <= i < |a| ensures EntryOk(a[i].e) { EntsAt(a, i); assert Lower(s)[i] == a[i].e; }
    forall i | 0 <= i < |b| ensures EntryOk(b[i].e) { EntsAt(b, i); assert Upper(s)[i] == b[i].e; }
  }

  /** Where the new name's hash falls after the split. */
  lemma SplitInRange(hash: Hash, ix: seq<Slot>, blocks: map<nat, seq<Rec>>, end: nat, p: nat, s: seq<Hent>, nb: nat,
                     h: nat)
    requires DirOk(hash, ix, blocks, end) && p < |ix| && InRange(ix, p, h)
    requires s == SortOf(Hashed(hash, LiveAt(blocks, ix[p].blk))) && Splittable(s)
    ensures |SplitIndex(ix, p, SplitKey(s), nb)| == |ix| + 1
    ensures SplitIndex(ix, p, SplitKey(s), nb)[p] == ix[p] && SplitIndex(ix, p, SplitKey(s), nb)[p + 1].blk == nb
    ensures h < SplitKey(s) ==> InRange(SplitIndex(ix, p, SplitKey(s), nb), p, h)
    ensures h >= SplitKey(s) ==> InRange(SplitIndex(ix, p, SplitKey(s), nb), p + 1, h)
  {
    hide Live, SortOf, Hashed, Lower, Upper, SplitKey, SplitIndex, InRange, Tiled, Splittable, IndexOk, Key;
    LeafTiled(hash, ix, blocks, end, p);
    HalvesFit(hash, blocks[ix[p].blk], end, s);
    SplitKeyRange(hash, ix, blocks, end, p, s);
    SplitLength(ix, p, SplitKey(s), nb);
    SplitKeys(ix, p, SplitKey(s), nb, p);
    SplitKeys(ix, p, SplitKey(s), nb, p + 1);
    SplitRange(ix, p, SplitKey(s), nb, p, h);
  }
}
