/** ext4 extent trees: looking a block up through up to six levels, and mapping one more block by
    growing an extent, adding one, pushing a full root down into a leaf block, or starting a sibling
    leaf (kernel/fs/ext4.c:513-539, 565-643). */
module Ext4Extents {
  const INIT_MAX: nat := 32768
  const LEVELS: nat := 6
  const ROOT_MAX: nat := 4

  /** `len` blocks from logical block `b` on disk from `start`; a length above INIT_MAX marks an
      unwritten extent of the excess length. */
  datatype Extent = Extent(b: nat, len: nat, start: nat)

  datatype Index = Index(b: nat, leaf: nat)

  datatype Node = Leaf(es: seq<Extent>, max: nat) | Inner(depth: nat, ix: seq<Index>, max: nat)

  // ---- lookup ----------------------------------------------------------------------------------

  function Length(e: Extent): nat { if e.len > INIT_MAX then e.len - INIT_MAX else e.len }

  predicate Covers(e: Extent, l: nat) { e.b <= l < e.b + Length(e) }

  function Target(e: Extent, l: nat): nat
    requires Covers(e, l)
  {
    if e.len > INIT_MAX then 0 else e.start + (l - e.b)
  }

  /** The first extent that covers the block decides. */
  function Find(es: seq<Extent>, l: nat): nat {
    if es == [] then 0 else if Covers(es[0], l) then Target(es[0], l) else Find(es[1..], l)
  }

  /** The last index entry that starts at or before the block. */
  function Pick(ix: seq<Index>, l: nat): (i: int)
    ensures -1 <= i < |ix| && (i >= 0 ==> ix[i].b <= l)
  {
    if ix == [] then -1 else if ix[|ix| - 1].b <= l then |ix| - 1 else Pick(ix[..|ix| - 1], l)
  }

  function Lookup(disk: map<nat, Node>, n: Node, l: nat, levels: nat): nat
    decreases levels
  {
    if levels == 0 then 0
    else if n.Leaf? then Find(n.es, l)
    else
      var i := Pick(n.ix, l);
      if i < 0 || n.ix[i].leaf !in disk then 0 else Lookup(disk, disk[n.ix[i].leaf], l, levels - 1)
  }

  /** The disk block of a logical one, 0 for a hole. */
  function Bmap(disk: map<nat, Node>, root: Node, l: nat): nat { Lookup(disk, root, l, LEVELS) }

  // ---- well-formed trees of depth 0 and 1 ------------------------------------------------------

  /** Written or unwritten, not empty; the length field has 16 bits. */
  predicate ExtentOk(e: Extent) { Length(e) > 0 && e.len < 0x1_0000 && e.start > 0 }

  predicate Unwritten(e: Extent) { e.len > INIT_MAX }

  function End(e: Extent): nat { e.b + Length(e) }

  predicate ExtentsOk(es: seq<Extent>) {
    && (forall i :: 0 <= i < |es| ==> ExtentOk(es[i]))
    && (forall i, j :: 0 <= i < j < |es| ==> End(es[i]) <= es[j].b)
  }

  /** Every extent lies in [lo, hi). */
  predicate Within(es: seq<Extent>, lo: nat, hi: nat) {
    forall i :: 0 <= i < |es| ==> lo <= es[i].b && End(es[i]) <= hi
  }

  /** Block numbers and the ends of extents are 32-bit. */
  const LIMIT: nat := 0xffff_ffff

  /** Where the keys of index entry `i` end. */
  function Upper(ix: seq<Index>, i: nat): nat
    requires i < |ix|
  {
    if i + 1 < |ix| then ix[i + 1].b else LIMIT
  }

  predicate LeafOk(disk: map<nat, Node>, ix: seq<Index>, i: nat)
    requires i < |ix|
  {
    && ix[i].leaf in disk && disk[ix[i].leaf].Leaf?
    && ExtentsOk(disk[ix[i].leaf].es) && 0 < |disk[ix[i].leaf].es| <= disk[ix[i].leaf].max
    && Within(disk[ix[i].leaf].es, ix[i].b, Upper(ix, i))
  }

  predicate IndexOk(ix: seq<Index>) {
    forall i, j :: 0 <= i < j < |ix| ==> ix[i].b < ix[j].b && ix[i].leaf != ix[j].leaf
  }

  ghost predicate TreeOk(disk: map<nat, Node>, root: Node) {
    match root
    case Leaf(es, max) => ExtentsOk(es) && |es| <= max == ROOT_MAX && Within(es, 0, LIMIT)
    case Inner(depth, ix, max) =>
      depth >= 1 && (depth == 1 ==>
        && 0 < |ix| <= max == ROOT_MAX && IndexOk(ix) && ix[|ix| - 1].b < LIMIT
        && forall i :: 0 <= i < |ix| ==> LeafOk(disk, ix, i))
  }

  // ---- finding in lists ------------------------------------------------------------------------

  predicate NoneCovers(es: seq<Extent>, l: nat) { forall i :: 0 <= i < |es| ==> !Covers(es[i], l) }

  lemma {:induction false} FindAppend(a: seq<Extent>, b: seq<Extent>, l: nat)
    ensures Find(a + b, l) == if NoneCovers(a, l) then Find(b, l) else Find(a, l)
  {
    if a == [] {
      assert a + b == b;
    } else {
      assert (a + b)[1..] == a[1..] + b;
      FindAppend(a[1..], b, l);
      if NoneCovers(a[1..], l) && !Covers(a[0], l) {
        forall i | 0 <= i < |a| ensures !Covers(a[i], l) { if i > 0 { assert a[i] == a[1..][i - 1]; } }
      } else if !NoneCovers(a[1..], l) {
        var i :| 0 <= i < |a[1..]| && Covers(a[1..][i], l);
        assert Covers(a[i + 1], l);
      }
    }
  }

  /** A block reads as a hole exactly where no extent lies or an unwritten one does. */
  lemma {:induction false} FindHole(es: seq<Extent>, l: nat)
    requires ExtentsOk(es)
    ensures Find(es, l) == 0 <==> forall i :: 0 <= i < |es| && Covers(es[i], l) ==> Unwritten(es[i])
  {
    if es != [] {
      FindHole(es[1..], l);
      assert forall i :: 0 < i < |es| ==> es[i] == es[1..][i - 1];
      if Covers(es[0], l) {
        forall i | 0 < i < |es| ensures !Covers(es[i], l) { assert End(es[0]) <= es[i].b; }
      }
    }
  }

  lemma FindOne(e: Extent, l: nat)
    ensures Find([e], l) == if Covers(e, l) then Target(e, l) else 0
  {
    assert [e][1..] == [];
  }

  /** How many extents start before the block. */
  function Before(es: seq<Extent>, l: nat): (at: nat)
    ensures at <= |es|
  {
    if es == [] || es[0].b >= l then 0 else 1 + Before(es[1..], l)
  }

  lemma {:induction false} BeforeSplits(es: seq<Extent>, l: nat)
    requires ExtentsOk(es)
    ensures forall i :: 0 <= i < Before(es, l) ==> es[i].b < l
    ensures forall i :: Before(es, l) <= i < |es| ==> es[i].b >= l
  {
    if es != [] && es[0].b < l {
      BeforeSplits(es[1..], l);
      assert forall i :: 0 < i < |es| ==> es[i] == es[1..][i - 1];
    }
  }

  function Inserted(es: seq<Extent>, l: nat, p: nat): seq<Extent> {
    es[..Before(es, l)] + [Extent(l, 1, p)] + es[Before(es, l)..]
  }

  lemma FindInserted(es: seq<Extent>, l: nat, p: nat, x: nat)
    requires NoneCovers(es, l)
    ensures Find(Inserted(es, l, p), x) == if x == l then p else Find(es, x)
  {
    var a, m, c := es[..Before(es, l)], [Extent(l, 1, p)], es[Before(es, l)..];
    assert es == a + c;
    FindAppend(a, c, x);
    FindAppend(a + m, c, x);
    FindAppend(a, m, x);
    FindOne(m[0], x);
    if x == l {
      assert NoneCovers(a, x) by { assert forall i :: 0 <= i < |a| ==> a[i] == es[i]; }
      assert Covers((a + m)[|a|], x);
    } else {
      CoversAppend(a, m, x);
    }
  }

  /** An extent that starts before the block covers it. */
  predicate CoveredBefore(es: seq<Extent>, l: nat) { exists i :: 0 <= i < |es| && es[i].b < l && Covers(es[i], l) }

  /** A block that reads as a hole because an unwritten extent covers it: whether the extent before is
      grown or a new one inserted, every other block is kept, but this one is found exactly if no extent
      that starts before it covers it. */
  lemma UnwrittenInsert(es: seq<Extent>, l: nat, p: nat, x: nat)
    requires p > 0 && Find(es, l) == 0 && forall i, j :: 0 <= i < j < |es| ==> es[i].b < es[j].b
    ensures var out := if Extends(es, l, p) then Grown(es, l) else Inserted(es, l, p);
            && (Find(out, l) == p <==> !CoveredBefore(es, l))
            && (x != l ==> Find(out, x) == Find(es, x))
  {
    hide Find, Before, CoveredBefore;
    if Extends(es, l, p) { UnwrittenGrown(es, l, p, x); } else { UnwrittenInserted(es, l, p, x); }
  }

  lemma UnwrittenInserted(es: seq<Extent>, l: nat, p: nat, x: nat)
    requires p > 0 && Find(es, l) == 0 && forall i, j :: 0 <= i < j < |es| ==> es[i].b < es[j].b
    ensures Find(Inserted(es, l, p), l) == p <==> !CoveredBefore(es, l)
    ensures x != l ==> Find(Inserted(es, l, p), x) == Find(es, x)
  {
    KeysSplit(es, l);
    hide Find, Before;
    var at := Before(es, l);
    var a, m, c := es[..at], Extent(l, 1, p), es[at..];
    assert es == a + c && Inserted(es, l, p) == a + [m] + c;
    FindAround(a, m, c, l);
    FindAround(a, m, c, x);
    FindAppend(a, c, l);
    FindAppend(a, c, x);
    NoneBefore(es, at, l);
  }

  lemma UnwrittenGrown(es: seq<Extent>, l: nat, p: nat, x: nat)
    requires p > 0 && Find(es, l) == 0 && Extends(es, l, p) && forall i, j :: 0 <= i < j < |es| ==> es[i].b < es[j].b
    ensures Find(Grown(es, l), l) == p <==> !CoveredBefore(es, l)
    ensures x != l ==> Find(Grown(es, l), x) == Find(es, x)
  {
    KeysSplit(es, l);
    hide Find, Before, NoneCovers, CoveredBefore;
    var k := Before(es, l) - 1;
    var a, e, c := es[..k], es[k], es[k + 1..];
    assert es == a + [e] + c && Grown(es, l) == a + [Longer(e)] + c;
    NoneBefore(es, k, l);
    GrowOne(a, e, c, l, p, x);
  }

  lemma GrowOne(a: seq<Extent>, e: Extent, c: seq<Extent>, l: nat, p: nat, x: nat)
    requires e.len < INIT_MAX && e.b + e.len == l && e.start + e.len == p && p > 0 && Find(a + [e] + c, l) == 0
    ensures Find(a + [Longer(e)] + c, l) == p <==> NoneCovers(a, l)
    ensures x != l ==> Find(a + [Longer(e)] + c, x) == Find(a + [e] + c, x)
  {
    hide Find, NoneCovers;
    FindAround(a, e, c, l);
    FindAround(a, e, c, x);
    FindAround(a, Longer(e), c, l);
    FindAround(a, Longer(e), c, x);
  }

  lemma NoneBefore(es: seq<Extent>, k: nat, l: nat)
    requires k <= |es| && forall i :: 0 <= i < k ==> es[i].b < l
    requires forall i :: k <= i < |es| ==> es[i].b >= l || !Covers(es[i], l)
    ensures NoneCovers(es[..k], l) <==> !CoveredBefore(es, l)
  {
    forall i | 0 <= i < k ensures es[..k][i] == es[i] {}
  }

  lemma {:induction false} KeysSplit(es: seq<Extent>, l: nat)
    requires forall i, j :: 0 <= i < j < |es| ==> es[i].b < es[j].b
    ensures forall i :: 0 <= i < Before(es, l) ==> es[i].b < l
    ensures forall i :: Before(es, l) <= i < |es| ==> es[i].b >= l
  {
    if es != [] && es[0].b < l {
      KeysSplit(es[1..], l);
      assert forall i :: 0 < i < |es| ==> es[i] == es[1..][i - 1];
    }
  }

  lemma CoversAppend(a: seq<Extent>, m: seq<Extent>, x: nat)
    ensures NoneCovers(a + m, x) <==> NoneCovers(a, x) && NoneCovers(m, x)
  {
    if NoneCovers(a + m, x) {
      forall i | 0 <= i < |a| ensures !Covers(a[i], x) { assert (a + m)[i] == a[i]; }
      forall i | 0 <= i < |m| ensures !Covers(m[i], x) { assert (a + m)[|a| + i] == m[i]; }
    }
  }

  lemma InsertedOk(es: seq<Extent>, l: nat, p: nat, lo: nat, hi: nat)
    requires ExtentsOk(es) && NoneCovers(es, l) && p > 0 && lo <= l < hi && Within(es, lo, hi)
    ensures ExtentsOk(Inserted(es, l, p)) && Within(Inserted(es, l, p), lo, hi)
  {
    BeforeSplits(es, l);
    hide Before, NoneCovers;
    forall i | 0 <= i < |es| ensures End(es[i]) <= l || es[i].b > l { NotCovered(es, l, i); }
    PlacedOk(es, Before(es, l), Extent(l, 1, p));
    PlacedWithin(es, Before(es, l), Extent(l, 1, p), lo, hi);
  }

  lemma NotCovered(es: seq<Extent>, l: nat, i: nat)
    requires NoneCovers(es, l) && i < |es| && ExtentOk(es[i])
    ensures End(es[i]) <= l || es[i].b > l
  {
    assert !Covers(es[i], l);
  }

  lemma PlacedOk(es: seq<Extent>, at: nat, e: Extent)
    requires ExtentsOk(es) && at <= |es| && ExtentOk(e)
    requires forall i :: 0 <= i < at ==> End(es[i]) <= e.b
    requires forall i :: at <= i < |es| ==> End(e) <= es[i].b
    ensures ExtentsOk(es[..at] + [e] + es[at..])
  {
    hide ExtentOk;
    var out := es[..at] + [e] + es[at..];
    forall i, j | 0 <= i < j < |out| ensures End(out[i]) <= out[j].b {
      assert out[i] == if i < at then es[i] else if i == at then e else es[i - 1];
      assert out[j] == if j < at then es[j] else if j == at then e else es[j - 1];
    }
  }

  lemma PlacedWithin(es: seq<Extent>, at: nat, e: Extent, lo: nat, hi: nat)
    requires at <= |es| && Within(es, lo, hi) && lo <= e.b && End(e) <= hi
    ensures Within(es[..at] + [e] + es[at..], lo, hi)
  {
  }

  /** The last extent starting before the block continues right into it, on disk as well. */
  predicate Extends(es: seq<Extent>, l: nat, p: nat) {
    var at := Before(es, l);
    at > 0 && es[at - 1].len < INIT_MAX && es[at - 1].b + es[at - 1].len == l && es[at - 1].start + es[at - 1].len == p
  }

  function Longer(e: Extent): Extent { Extent(e.b, e.len + 1, e.start) }

  function Grown(es: seq<Extent>, l: nat): seq<Extent>
    requires Before(es, l) > 0
  {
    es[Before(es, l) - 1 := Longer(es[Before(es, l) - 1])]
  }

  lemma FindGrown(es: seq<Extent>, l: nat, p: nat, x: nat)
    requires ExtentsOk(es) && Extends(es, l, p) && NoneCovers(es, l)
    ensures Find(Grown(es, l), x) == if x == l then p else Find(es, x)
  {
    hide Find, Before;
    var k := Before(es, l) - 1;
    var a, c, e := es[..k], es[k + 1..], es[k];
    assert es == a + [e] + c && Grown(es, l) == a + [Longer(e)] + c;
    FindAround(a, e, c, x);
    FindAround(a, Longer(e), c, x);
    assert !Covers(e, l) && ExtentOk(e);
    if x == l {
      assert NoneCovers(a, x) by { assert forall i :: 0 <= i < |a| ==> a[i] == es[i]; }
    }
  }

  lemma FindAround(a: seq<Extent>, e: Extent, c: seq<Extent>, x: nat)
    ensures Find(a + [e] + c, x)
            == if !NoneCovers(a, x) then Find(a, x) else if Covers(e, x) then Target(e, x) else Find(c, x)
  {
    FindAppend(a + [e], c, x);
    FindAppend(a, [e], x);
    FindOne(e, x);
    CoversAppend(a, [e], x);
    assert NoneCovers([e], x) <==> !Covers(e, x) by { assert [e][0] == e; }
  }

  lemma GrownOk(es: seq<Extent>, l: nat, p: nat, lo: nat, hi: nat)
    requires ExtentsOk(es) && Extends(es, l, p) && NoneCovers(es, l) && l < hi && Within(es, lo, hi)
    ensures ExtentsOk(Grown(es, l)) && Within(Grown(es, l), lo, hi)
  {
    BeforeSplits(es, l);
    forall i | Before(es, l) <= i < |es| ensures es[i].b > l { assert !Covers(es[i], l); }
  }

  // ---- the index level ---------------------------------------------------------------------------

  lemma {:induction false} PickIs(ix: seq<Index>, l: nat, i: nat)
    requires i < |ix| && ix[i].b <= l && forall j :: i < j < |ix| ==> ix[j].b > l
    ensures Pick(ix, l) == i
  {
    if i < |ix| - 1 { PickIs(ix[..|ix| - 1], l, i); }
  }

  lemma {:induction false} PickNone(ix: seq<Index>, l: nat)
    requires forall j :: 0 <= j < |ix| ==> ix[j].b > l
    ensures Pick(ix, l) == -1
  {
    if ix != [] { PickNone(ix[..|ix| - 1], l); }
  }

  lemma {:induction false} PickLast(ix: seq<Index>, l: nat)
    ensures forall j :: Pick(ix, l) < j < |ix| ==> ix[j].b > l
  {
    if ix != [] && ix[|ix| - 1].b > l { PickLast(ix[..|ix| - 1], l); }
  }

  /** Which leaf an insertion works on: the one a lookup picks, or the first. */
  function Chosen(ix: seq<Index>, l: nat): (i: nat)
    requires |ix| > 0
    ensures i < |ix|
  {
    if Pick(ix, l) < 0 then 0 else Pick(ix, l)
  }

  function LeafNode(disk: map<nat, Node>, ix: seq<Index>, i: nat): (n: Node)
    requires i < |ix|
    ensures n.Leaf?
  {
    if ix[i].leaf in disk && disk[ix[i].leaf].Leaf? then disk[ix[i].leaf] else Leaf([], 0)
  }

  function ChosenLeaf(disk: map<nat, Node>, root: Node, l: nat): (n: Node)
    requires root.Inner? && |root.ix| > 0
    ensures n.Leaf?
  {
    LeafNode(disk, root.ix, Chosen(root.ix, l))
  }

  lemma ChosenRange(ix: seq<Index>, l: nat)
    requires IndexOk(ix) && |ix| > 0 && l < LIMIT
    ensures Pick(ix, l) >= 0 <==> ix[0].b <= l
    ensures l < Upper(ix, Chosen(ix, l)) || l < ix[0].b
  {
    PickLast(ix, l);
    if Pick(ix, l) >= 0 { assert ix[0].b <= ix[Pick(ix, l)].b; }
  }

  /** Lookup in a tree of depth 1. */
  lemma BmapInner(disk: map<nat, Node>, root: Node, l: nat)
    requires root.Inner? && root.depth == 1 && TreeOk(disk, root)
    ensures Pick(root.ix, l) < 0 ==> Bmap(disk, root, l) == 0
    ensures Pick(root.ix, l) >= 0 ==> LeafOk(disk, root.ix, Pick(root.ix, l))
                                      && Bmap(disk, root, l) == Find(LeafNode(disk, root.ix, Pick(root.ix, l)).es, l)
  {
    hide Find, Pick, ExtentsOk, Within;
    var i := Pick(root.ix, l);
    if i >= 0 {
      assert LeafOk(disk, root.ix, i);
      var n := disk[root.ix[i].leaf];
      assert Lookup(disk, root, l, 6) == Lookup(disk, n, l, 5);
    }
  }

  lemma BmapLeaf(disk: map<nat, Node>, root: Node, l: nat)
    requires root.Leaf?
    ensures Bmap(disk, root, l) == Find(root.es, l)
  {
  }

  /** Block `l`, and no other, changed: it is now at `p`. */
  ghost predicate Mapped(disk: map<nat, Node>, root: Node, disk': map<nat, Node>, root': Node, l: nat, p: nat) {
    Bmap(disk', root', l) == p && forall x: nat :: x != l ==> Bmap(disk', root', x) == Bmap(disk, root, x)
  }

  // ---- the three ways of making room ---------------------------------------------------------------

  /** In the leaf that insertion works on, what covers an unmapped block is unwritten. */
  lemma HoleInLeaf(disk: map<nat, Node>, root: Node, l: nat)
    requires root.Inner? && root.depth == 1 && TreeOk(disk, root) && Bmap(disk, root, l) == 0 && l < LIMIT
    ensures LeafOk(disk, root.ix, Chosen(root.ix, l)) && Find(ChosenLeaf(disk, root, l).es, l) == 0
  {
    hide Find, Pick;
    BmapInner(disk, root, l);
    ChosenRange(root.ix, l);
    var i := Chosen(root.ix, l);
    assert LeafOk(disk, root.ix, i);
    FindHole(LeafNode(disk, root.ix, i).es, l);
  }

  /** New contents for the chosen leaf that change no lookup there but that of `l`: right exactly if lookups
      of `l` pick that leaf and find it. */
  lemma LeafReplaced(disk: map<nat, Node>, root: Node, l: nat, p: nat, es: seq<Extent>)
    requires root.Inner? && root.depth == 1 && TreeOk(disk, root) && l < LIMIT && p > 0
    requires forall x :: x != l ==> Find(es, x) == Find(ChosenLeaf(disk, root, l).es, x)
    ensures Mapped(disk, root, disk[root.ix[Chosen(root.ix, l)].leaf := Leaf(es, ChosenLeaf(disk, root, l).max)], root,
                   l, p)
            <==> root.ix[0].b <= l && Find(es, l) == p
  {
    hide Find, Pick, ExtentsOk, Within;
    var ix, i := root.ix, Chosen(root.ix, l);
    var disk' := disk[ix[i].leaf := Leaf(es, LeafNode(disk, ix, i).max)];
    ChosenRange(ix, l);
    BmapInner(disk, root, l);
    forall x: nat ensures Bmap(disk', root, x) == if Pick(ix, x) == i then Find(es, x) else Bmap(disk, root, x) {
      ReplacedLookup(disk, root, i, es, x);
    }
    forall x: nat | x != l ensures Bmap(disk', root, x) == Bmap(disk, root, x) { BmapInner(disk, root, x); }
  }

  lemma LeafKept(disk: map<nat, Node>, root: Node, l: nat, es: seq<Extent>)
    requires root.Inner? && root.depth == 1 && TreeOk(disk, root) && l < LIMIT && root.ix[0].b <= l
    requires ExtentsOk(es) && 0 < |es| <= ChosenLeaf(disk, root, l).max
    requires Within(es, root.ix[Chosen(root.ix, l)].b, Upper(root.ix, Chosen(root.ix, l)))
    ensures TreeOk(disk[root.ix[Chosen(root.ix, l)].leaf := Leaf(es, ChosenLeaf(disk, root, l).max)], root)
  {
    hide Find, Pick, ExtentsOk, Within;
    var ix, i := root.ix, Chosen(root.ix, l);
    var disk' := disk[ix[i].leaf := Leaf(es, LeafNode(disk, ix, i).max)];
    forall j | 0 <= j < |ix| ensures LeafOk(disk', ix, j) { assert LeafOk(disk, ix, j); }
  }

  lemma ReplacedLookup(disk: map<nat, Node>, root: Node, i: nat, es: seq<Extent>, x: nat)
    requires root.Inner? && root.depth == 1 && TreeOk(disk, root) && i < |root.ix|
    ensures Bmap(disk[root.ix[i].leaf := Leaf(es, LeafNode(disk, root.ix, i).max)], root, x)
            == if Pick(root.ix, x) == i then Find(es, x) else Bmap(disk, root, x)
  {
    hide Find, Pick, ExtentsOk, Within;
    assert LeafOk(disk, root.ix, i);
    var disk' := disk[root.ix[i].leaf := Leaf(es, LeafNode(disk, root.ix, i).max)];
    var q := Pick(root.ix, x);
    BmapInner(disk, root, x);
    if q >= 0 {
      var n := disk'[root.ix[q].leaf];
      assert LeafOk(disk, root.ix, q);
      assert Lookup(disk', root, x, 6) == Lookup(disk', n, x, 5);
    }
  }

  /** A full root pushed down into a leaf block maps what it did. */
  lemma PushedDown(disk: map<nat, Node>, root: Node, nb: nat, max: nat)
    requires root.Leaf? && TreeOk(disk, root) && |root.es| == ROOT_MAX && max > ROOT_MAX
    ensures TreeOk(disk[nb := Leaf(root.es, max)], Inner(1, [Index(root.es[0].b, nb)], ROOT_MAX))
    ensures forall x: nat ::
              Bmap(disk[nb := Leaf(root.es, max)], Inner(1, [Index(root.es[0].b, nb)], ROOT_MAX), x)
              == Bmap(disk, root, x)
  {
    var ix := [Index(root.es[0].b, nb)];
    var disk', root' := disk[nb := Leaf(root.es, max)], Inner(1, ix, ROOT_MAX);
    assert root.es[0].b < LIMIT;
    assert LeafOk(disk', ix, 0);
    hide Find;
    assert TreeOk(disk', root');
    forall x: nat ensures Bmap(disk', root', x) == Bmap(disk, root, x) {
      BmapInner(disk', root', x);
      if x < root.es[0].b {
        FindHole(root.es, x);
      }
    }
  }

  /** Every extent in the leaves after the `i`-th is unwritten. */
  ghost predicate NoneWrittenAfter(disk: map<nat, Node>, ix: seq<Index>, i: nat) {
    forall j, k :: i < j < |ix| && 0 <= k < |LeafNode(disk, ix, j).es| ==> Unwritten(LeafNode(disk, ix, j).es[k])
  }

  /** A sibling leaf for a block past the chosen leaf's end: right exactly if nothing in the leaves after that
      one is written. */
  lemma SiblingAdded(disk: map<nat, Node>, root: Node, l: nat, p: nat, nb: nat, max: nat)
    requires root.Inner? && root.depth == 1 && TreeOk(disk, root) && Bmap(disk, root, l) == 0 && l < LIMIT && p > 0
    requires nb !in disk && max > 0 && |root.ix| < ROOT_MAX
    requires Before(ChosenLeaf(disk, root, l).es, l) == |ChosenLeaf(disk, root, l).es|
    ensures Mapped(disk, root, disk[nb := Leaf([Extent(l, 1, p)], max)],
                   Inner(1, root.ix + [Index(l, nb)], ROOT_MAX), l, p)
            <==> NoneWrittenAfter(disk, root.ix, Chosen(root.ix, l))
  {
    hide Find, Pick, Before, ExtentsOk, Within, NoneCovers, Bmap, Chosen, TreeOk, LeafOk;
    var ix, i := root.ix, Chosen(root.ix, l);
    var disk', root' := disk[nb := Leaf([Extent(l, 1, p)], max)], Inner(1, ix + [Index(l, nb)], ROOT_MAX);
    SiblingLookup(disk, root, l, p, nb, max, l);
    if NoneWrittenAfter(disk, ix, i) {
      hide NoneWrittenAfter;
      forall x: nat | x != l ensures Bmap(disk', root', x) == Bmap(disk, root, x) {
        SiblingLookup(disk, root, l, p, nb, max, x);
        if x > l { PastEnd(disk, root, l, x); }
      }
    } else {
      var j, k :| i < j < |ix| && 0 <= k < |LeafNode(disk, ix, j).es| && !Unwritten(LeafNode(disk, ix, j).es[k]);
      WrittenMapped(disk, root, l, j, k);
      SiblingLookup(disk, root, l, p, nb, max, LeafNode(disk, ix, j).es[k].b);
    }
  }

  lemma LastChosen(ix: seq<Index>, l: nat)
    requires |ix| > 0 && ix[|ix| - 1].b <= l
    ensures Chosen(ix, l) == |ix| - 1
  {
  }

  /** A written extent of a leaf after the chosen one is mapped, and past the block. */
  lemma WrittenMapped(disk: map<nat, Node>, root: Node, l: nat, j: nat, k: nat)
    requires root.Inner? && root.depth == 1 && TreeOk(disk, root) && Chosen(root.ix, l) < j < |root.ix|
    requires k < |LeafNode(disk, root.ix, j).es| && !Unwritten(LeafNode(disk, root.ix, j).es[k])
    ensures l < LeafNode(disk, root.ix, j).es[k].b && Bmap(disk, root, LeafNode(disk, root.ix, j).es[k].b) != 0
  {
    PickLast(root.ix, l);
    hide Find;
    assert LeafOk(disk, root.ix, j);
    var es := LeafNode(disk, root.ix, j).es;
    var x := es[k].b;
    assert ExtentOk(es[k]) && Covers(es[k], x) && x < Upper(root.ix, j) && root.ix[j].b <= x;
    assert forall m :: j < m < |root.ix| ==> root.ix[m].b > x;
    PickIs(root.ix, x, j);
    BmapInner(disk, root, x);
    FindHole(es, x);
  }

  /** Nothing is mapped past the chosen leaf's extents if nothing after it is written. */
  lemma PastEnd(disk: map<nat, Node>, root: Node, l: nat, x: nat)
    requires root.Inner? && root.depth == 1 && TreeOk(disk, root) && Bmap(disk, root, l) == 0 && l < x && l < LIMIT
    requires Before(ChosenLeaf(disk, root, l).es, l) == |ChosenLeaf(disk, root, l).es|
    requires NoneWrittenAfter(disk, root.ix, Chosen(root.ix, l))
    ensures Bmap(disk, root, x) == 0
  {
    hide Find, Before;
    BmapInner(disk, root, x);
    PickGrows(root.ix, l, x);
    HoleInLeaf(disk, root, l);
    var i, q := Chosen(root.ix, l), Pick(root.ix, x);
    if q == i {
      var es := LeafNode(disk, root.ix, i).es;
      BeforeSplits(es, l);
      FindHole(es, l);
      forall k | 0 <= k < |es| && Covers(es[k], x) ensures Unwritten(es[k]) { assert es[k].b < l && Covers(es[k], l); }
      FindHole(es, x);
    } else if q >= 0 {
      assert LeafOk(disk, root.ix, q);
      FindHole(LeafNode(disk, root.ix, q).es, x);
    }
  }

  lemma PickGrows(ix: seq<Index>, l: nat, x: nat)
    requires |ix| > 0 && l <= x
    ensures Pick(ix, x) < 0 || Pick(ix, x) >= Chosen(ix, l)
  {
    PickLast(ix, x);
    PickLast(ix, l);
  }

  lemma SiblingTree(disk: map<nat, Node>, root: Node, l: nat, p: nat, nb: nat, max: nat)
    requires root.Inner? && root.depth == 1 && TreeOk(disk, root) && l < LIMIT && p > 0
    requires nb !in disk && max > 0 && |root.ix| < ROOT_MAX && root.ix[|root.ix| - 1].b <= l
    requires LeafOk(disk, root.ix, |root.ix| - 1)
    requires Before(LeafNode(disk, root.ix, |root.ix| - 1).es, l) == |LeafNode(disk, root.ix, |root.ix| - 1).es|
    requires NoneCovers(LeafNode(disk, root.ix, |root.ix| - 1).es, l)
    ensures TreeOk(disk[nb := Leaf([Extent(l, 1, p)], max)], Inner(1, root.ix + [Index(l, nb)], ROOT_MAX))
  {
    var ix, last := root.ix, |root.ix| - 1;
    var ix', disk' := ix + [Index(l, nb)], disk[nb := Leaf([Extent(l, 1, p)], max)];
    var es := LeafNode(disk, ix, last).es;
    BeforeSplits(es, l);
    hide Before;
    assert es[0].b < l && ix[last].b <= es[0].b;
    forall j | 0 <= j < |ix'| ensures LeafOk(disk', ix', j) {
      if j < last {
        assert LeafOk(disk, ix, j);
        assert Upper(ix', j) == Upper(ix, j);
      } else if j == last {
        forall k | 0 <= k < |es| ensures End(es[k]) <= l { NotCovered(es, l, k); }
      }
    }
    forall j, k | 0 <= j < k < |ix'| ensures ix'[j].b < ix'[k].b && ix'[j].leaf != ix'[k].leaf {
      assert LeafOk(disk, ix, j);
    }
  }

  lemma SiblingLookup(disk: map<nat, Node>, root: Node, l: nat, p: nat, nb: nat, max: nat, x: nat)
    requires root.Inner? && root.depth == 1 && TreeOk(disk, root) && nb !in disk
    ensures Bmap(disk[nb := Leaf([Extent(l, 1, p)], max)], Inner(1, root.ix + [Index(l, nb)], ROOT_MAX), x)
            == if l <= x then (if x == l then p else 0) else Bmap(disk, root, x)
  {
    hide Find, ExtentsOk, Within;
    var ix' := root.ix + [Index(l, nb)];
    var disk', root' := disk[nb := Leaf([Extent(l, 1, p)], max)], Inner(1, ix', ROOT_MAX);
    FindOne(Extent(l, 1, p), x);
    assert ix'[..|ix'| - 1] == root.ix;
    BmapInner(disk, root, x);
    var q := Pick(ix', x);
    if q >= 0 {
      assert l > x ==> LeafOk(disk, root.ix, q);
      assert Lookup(disk', root', x, 6) == Lookup(disk', disk'[ix'[q].leaf], x, 5);
    }
  }

  // ---- inserting -----------------------------------------------------------------------------------

  predicate HasRoom(n: Node, l: nat, p: nat)
    requires n.Leaf?
  {
    Extends(n.es, l, p) || |n.es| < n.max
  }

  /** Whether an insertion is carried out; `nb` is the block the allocator has for it, 0 for none. */
  predicate Accepts(disk: map<nat, Node>, root: Node, l: nat, p: nat, nb: nat) {
    if root.Leaf? then HasRoom(root, l, p) || nb > 0
    else
      root.depth == 1 && |root.ix| > 0 &&
      (HasRoom(ChosenLeaf(disk, root, l), l, p) ||
       (nb > 0 && |root.ix| < root.max && Before(ChosenLeaf(disk, root, l).es, l) == |ChosenLeaf(disk, root, l).es|))
  }

  /** Whether carrying it out maps the block and keeps all others: not before the first key of an index, not
      into an unwritten extent that starts before it, and a sibling leaf only if nothing in the leaves after
      it is written. */
  ghost predicate Sound(disk: map<nat, Node>, root: Node, l: nat, p: nat) {
    if root.Leaf? then
      (HasRoom(root, l, p) || (|root.es| > 0 && root.es[0].b <= l)) && !CoveredBefore(root.es, l)
    else
      && |root.ix| > 0 && root.ix[0].b <= l
      && if HasRoom(ChosenLeaf(disk, root, l), l, p) then !CoveredBefore(ChosenLeaf(disk, root, l).es, l)
         else NoneWrittenAfter(disk, root.ix, Chosen(root.ix, l))
  }

  /** Whether the tree is well formed afterwards as well: into a real hole, and a sibling only after the last
      leaf. */
  predicate Tidy(disk: map<nat, Node>, root: Node, l: nat, p: nat) {
    if root.Leaf? then (HasRoom(root, l, p) || (|root.es| > 0 && root.es[0].b <= l)) && NoneCovers(root.es, l)
    else
      && |root.ix| > 0 && root.ix[0].b <= l && NoneCovers(ChosenLeaf(disk, root, l).es, l)
      && (HasRoom(ChosenLeaf(disk, root, l), l, p) || root.ix[|root.ix| - 1].b <= l)
  }

  lemma TidyIsSound(disk: map<nat, Node>, root: Node, l: nat, p: nat)
    requires Tidy(disk, root, l, p)
    ensures Sound(disk, root, l, p)
  {
    hide HasRoom, Covers;
    if root.Inner? && root.ix[|root.ix| - 1].b <= l { LastChosen(root.ix, l); }
  }

  /** Every extent of the tree, written or not, ends at or before the block. */
  ghost predicate AllBelow(disk: map<nat, Node>, root: Node, l: nat) {
    match root
    case Leaf(es, _) => forall i :: 0 <= i < |es| ==> End(es[i]) <= l
    case Inner(_, ix, _) =>
      forall j, k :: 0 <= j < |ix| && 0 <= k < |LeafNode(disk, ix, j).es| ==> End(LeafNode(disk, ix, j).es[k]) <= l
  }

  /** A block past all extents is always right to add, and leaves the tree well formed. */
  lemma AppendIsSound(disk: map<nat, Node>, root: Node, l: nat, p: nat)
    requires TreeOk(disk, root) && (root.Inner? ==> root.depth == 1) && AllBelow(disk, root, l)
    ensures Sound(disk, root, l, p) && Tidy(disk, root, l, p)
  {
    if root.Leaf? {
      if |root.es| == ROOT_MAX { assert ExtentOk(root.es[0]) && End(root.es[0]) <= l; }
    } else {
      var ix := root.ix;
      assert LeafOk(disk, ix, 0) && LeafOk(disk, ix, |ix| - 1) && LeafOk(disk, ix, Chosen(ix, l));
      assert End(LeafNode(disk, ix, 0).es[0]) <= l && End(LeafNode(disk, ix, |ix| - 1).es[0]) <= l;
      hide HasRoom, Pick;
    }
    hide HasRoom;
    TidyIsSound(disk, root, l, p);
  }

  /** Without unwritten extents, past everything mapped is past all extents. */
  lemma MappedBelow(disk: map<nat, Node>, root: Node, l: nat)
    requires TreeOk(disk, root) && (root.Inner? ==> root.depth == 1) && NoneUnwritten(disk, root)
    requires forall x: nat :: x >= l ==> Bmap(disk, root, x) == 0
    ensures AllBelow(disk, root, l)
  {
    if root.Leaf? {
      forall i | 0 <= i < |root.es| ensures End(root.es[i]) <= l {
        LastBlock(root.es, i);
        BmapLeaf(disk, root, End(root.es[i]) - 1);
      }
    } else {
      forall j, k | 0 <= j < |root.ix| && 0 <= k < |LeafNode(disk, root.ix, j).es|
        ensures End(LeafNode(disk, root.ix, j).es[k]) <= l
      {
        assert LeafOk(disk, root.ix, j);
        var es := LeafNode(disk, root.ix, j).es;
        LastBlock(es, k);
        var x := End(es[k]) - 1;
        assert x < Upper(root.ix, j) && root.ix[j].b <= x;
        hide Find;
        PickIs(root.ix, x, j);
        BmapInner(disk, root, x);
      }
    }
  }

  ghost predicate NoneUnwritten(disk: map<nat, Node>, root: Node) {
    match root
    case Leaf(es, _) => forall i :: 0 <= i < |es| ==> !Unwritten(es[i])
    case Inner(_, ix, _) =>
      forall j, k :: 0 <= j < |ix| && 0 <= k < |LeafNode(disk, ix, j).es| ==> !Unwritten(LeafNode(disk, ix, j).es[k])
  }

  lemma LastBlock(es: seq<Extent>, k: nat)
    requires ExtentsOk(es) && k < |es| && !Unwritten(es[k])
    ensures End(es[k]) > 0 && Find(es, End(es[k]) - 1) != 0
  {
    assert ExtentOk(es[k]) && Covers(es[k], End(es[k]) - 1);
    FindHole(es, End(es[k]) - 1);
  }

  /** A leaf block of 1024 bytes, full of single blocks with holes between them. */
  function FullLeaf(): seq<Extent> { seq(84, i requires 0 <= i < 84 => Extent(2 * i, 1, 1000 + 2 * i)) }

  /** All three ways of going wrong are accepted: a block before the first key or inside an unwritten extent is
      not found afterwards, and one past the end of a full leaf that is not the last hides the leaves after it. */
  lemma UnsoundExamples()
    ensures var disk := map[9 := Leaf([Extent(100, 1, 50)], 84)]; var root := Inner(1, [Index(100, 9)], 4);
            TreeOk(disk, root) && Accepts(disk, root, 5, 60, 0) && !Sound(disk, root, 5, 60)
    ensures var disk := map[9 := Leaf(FullLeaf(), 84), 10 := Leaf([Extent(300, 1, 70)], 84)];
            var root := Inner(1, [Index(0, 9), Index(300, 10)], 4);
            TreeOk(disk, root) && Accepts(disk, root, 200, 60, 11) && !Sound(disk, root, 200, 60)
    ensures var root := Leaf([Extent(0, INIT_MAX + 10, 50)], ROOT_MAX);
            TreeOk(map[], root) && Accepts(map[], root, 5, 60, 0) && !Sound(map[], root, 5, 60)
  {
    UnsoundBefore();
    UnsoundBetween();
    UnsoundInside();
  }

  lemma UnsoundBefore()
    ensures var disk := map[9 := Leaf([Extent(100, 1, 50)], 84)]; var root := Inner(1, [Index(100, 9)], 4);
            TreeOk(disk, root) && Accepts(disk, root, 5, 60, 0) && !Sound(disk, root, 5, 60)
  {
    PickNone([Index(100, 9)], 5);
    assert [Extent(100, 1, 50)][1..] == [];
  }

  lemma UnsoundInside()
    ensures var root := Leaf([Extent(0, INIT_MAX + 10, 50)], ROOT_MAX);
            TreeOk(map[], root) && Accepts(map[], root, 5, 60, 0) && !Sound(map[], root, 5, 60)
  {
    var es := [Extent(0, INIT_MAX + 10, 50)];
    assert es[0].b < 5 && Covers(es[0], 5);
  }

  lemma UnsoundBetween()
    ensures var disk := map[9 := Leaf(FullLeaf(), 84), 10 := Leaf([Extent(300, 1, 70)], 84)];
            var root := Inner(1, [Index(0, 9), Index(300, 10)], 4);
            TreeOk(disk, root) && Accepts(disk, root, 200, 60, 11) && !Sound(disk, root, 200, 60)
  {
    FullLeafIs();
    hide FullLeaf, ExtentsOk, Within, Before;
    var ix := [Index(0, 9), Index(300, 10)];
    PickIs(ix, 200, 0);
    OneExtent();
    var disk := map[9 := Leaf(FullLeaf(), 84), 10 := Leaf([Extent(300, 1, 70)], 84)];
    assert LeafNode(disk, ix, 1).es[0] == Extent(300, 1, 70);
  }

  lemma FullLeafIs()
    ensures ExtentsOk(FullLeaf()) && |FullLeaf()| == 84 && Within(FullLeaf(), 0, 300)
    ensures Before(FullLeaf(), 200) == 84 && !Extends(FullLeaf(), 200, 60)
  {
    var es := FullLeaf();
    assert |es| == 84 && forall i :: 0 <= i < 84 ==> es[i] == Extent(2 * i, 1, 1000 + 2 * i);
    assert es[83] == Extent(166, 1, 1166);
    hide FullLeaf, Before;
    AllBefore(es, 200);
  }

  lemma {:induction false} AllBefore(es: seq<Extent>, l: nat)
    requires forall i :: 0 <= i < |es| ==> es[i].b < l
    ensures Before(es, l) == |es|
  {
    if es != [] { AllBefore(es[1..], l); }
  }

  lemma OneExtent()
    ensures ExtentsOk([Extent(300, 1, 70)]) && Within([Extent(300, 1, 70)], 300, LIMIT)
  {
  }

  /** The tree of one inode: its root, and the disk blocks that hold nodes. */
  class ExtentTree {
    const leafMax: nat
    var root: Node
    var disk: map<nat, Node>

    constructor (leafMax: nat)
      ensures this.leafMax == leafMax && TreeOk(disk, root) && forall x: nat :: Bmap(disk, root, x) == 0
    {
      this.leafMax := leafMax;
      root, disk := Leaf([], ROOT_MAX), map[];
      new;
      forall x: nat ensures Bmap(disk, root, x) == 0 { BmapLeaf(disk, root, x); }
    }

    /** The disk block of a logical one, 0 for a hole. */
    method Map(l: nat) returns (p: nat)
      ensures p == Bmap(disk, root, l)
    {
      var h := root;
      for level := 0 to LEVELS
        invariant Lookup(disk, h, l, LEVELS - level) == Bmap(disk, root, l)
      {
        if h.Leaf? {
          p := FindIn(h.es, l);
          return;
        }
        var pick := PickIn(h.ix, l);
        if pick < 0 || h.ix[pick].leaf !in disk { return 0; }
        h := disk[h.ix[pick].leaf];
      }
      return 0;
    }

    static method FindIn(es: seq<Extent>, l: nat) returns (p: nat)
      ensures p == Find(es, l)
    {
      for i := 0 to |es|
        invariant NoneCovers(es[..i], l)
      {
        if Covers(es[i], l) {
          assert es == es[..i] + es[i..];
          FindAppend(es[..i], es[i..], l);
          return Target(es[i], l);
        }
      }
      assert es[..|es|] == es && es + [] == es;
      FindAppend(es, [], l);
      return 0;
    }

    static method PickIn(ix: seq<Index>, l: nat) returns (pick: int)
      ensures pick == Pick(ix, l)
    {
      pick := -1;
      for i := 0 to |ix|
        invariant -1 <= pick < i && (pick >= 0 ==> ix[pick].b <= l)
        invariant forall j :: pick < j < i ==> ix[j].b > l
      {
        if ix[i].b <= l { pick := i; }
      }
      if pick >= 0 { PickIs(ix, l, pick); } else { PickNone(ix, l); }
    }

    static method CountBefore(es: seq<Extent>, l: nat) returns (at: nat)
      ensures at == Before(es, l)
    {
      at := 0;
      while at < |es| && es[at].b < l
        invariant at <= |es| && Before(es, l) == at + Before(es[at..], l)
      {
        assert es[at..][1..] == es[at + 1..];
        at := at + 1;
      }
    }

    /** Grow the extent before the block, or add one, if there is room. */
    static method IntoLeaf(n: Node, l: nat, p: nat) returns (ok: bool, at: nat, es: seq<Extent>)
      requires n.Leaf?
      ensures ok == HasRoom(n, l, p) && at == Before(n.es, l)
      ensures es == if Extends(n.es, l, p) then Grown(n.es, l) else if ok then Inserted(n.es, l, p) else n.es
    {
      es := n.es;
      at := CountBefore(es, l);
      if at > 0 {
        var prev := es[at - 1];
        if prev.len < INIT_MAX && prev.b + prev.len == l && prev.start + prev.len == p {
          es := es[at - 1 := Longer(prev)];
          return true, at, es;
        }
      }
      if |es| < n.max {
        es := es[..at] + [Extent(l, 1, p)] + es[at..];
        return true, at, es;
      }
      return false, at, es;
    }

    /** Map an unmapped block `l` to `p`. Refusal changes nothing; success maps `l` and keeps every other
        block exactly if the insertion was sound. */
    method Insert(l: nat, p: nat, nb: nat) returns (ok: bool)
      requires TreeOk(disk, root) && leafMax > ROOT_MAX && l < LIMIT && p > 0
      requires Bmap(disk, root, l) == 0 && (nb == 0 || nb !in disk)
      modifies this
      ensures ok == old(Accepts(disk, root, l, p, nb))
      ensures !ok ==> root == old(root) && disk == old(disk)
      ensures ok ==> (Mapped(old(disk), old(root), disk, root, l, p) <==> old(Sound(disk, root, l, p)))
      ensures ok && old(Tidy(disk, root, l, p)) ==> TreeOk(disk, root)
      decreases root.Leaf?
    {
      hide Bmap, ExtentsOk, Within, Find, Extends, Before, Grown, Inserted, LeafOk, NoneCovers, Pick, Mapped;
      if root.Inner? {
        ok := InsertBelow(l, p, nb);
        return;
      }
      ghost var d0, r0 := disk, root;
      var room, at, es := IntoLeaf(root, l, p);
      if room {
        AddedToRoot(disk, root, l, p, es);
        root := Leaf(es, root.max);
        return true;
      }
      if nb == 0 { return false; }
      PushedDown(disk, root, nb, leafMax);
      disk := disk[nb := Leaf(root.es, leafMax)];
      root := Inner(1, [Index(root.es[0].b, nb)], root.max);
      PushedRoom(disk, root, r0, l, p);
      ok := InsertBelow(l, p, 0);
      MappedAfterPush(d0, r0, old(disk)[nb := Leaf(r0.es, leafMax)], Inner(1, [Index(r0.es[0].b, nb)], ROOT_MAX), disk,
                      root, l, p);
    }

    method InsertBelow(l: nat, p: nat, nb: nat) returns (ok: bool)
      requires TreeOk(disk, root) && root.Inner? && leafMax > ROOT_MAX && l < LIMIT && p > 0
      requires Bmap(disk, root, l) == 0 && (nb == 0 || nb !in disk)
      modifies this
      ensures ok == old(Accepts(disk, root, l, p, nb))
      ensures !ok ==> root == old(root) && disk == old(disk)
      ensures ok ==> (Mapped(old(disk), old(root), disk, root, l, p) <==> old(Sound(disk, root, l, p)))
      ensures ok && old(Tidy(disk, root, l, p)) ==> TreeOk(disk, root)
    {
      hide Bmap, ExtentsOk, Within, Find, Extends, Before, Grown, Inserted, LeafOk, NoneCovers, Mapped;
      if root.depth > 1 { return false; }
      var pick := PickIn(root.ix, l);
      if pick < 0 { pick := 0; }
      hide Pick;
      HoleInLeaf(disk, root, l);
      LeafThere(disk, root, pick);
      var leaf := disk[root.ix[pick].leaf];
      var room, at, es := IntoLeaf(leaf, l, p);
      if room {
        AddedBelow(disk, root, l, p, es);
        disk := disk[root.ix[pick].leaf := Leaf(es, leaf.max)];
        return true;
      }
      if at != |leaf.es| || |root.ix| >= root.max { return false; }
      if nb == 0 { return false; }
      SiblingAdded(disk, root, l, p, nb, leafMax);
      SiblingAfterFirst(disk, root, l);
      if Tidy(disk, root, l, p) { SiblingTidy(disk, root, l, p, nb, leafMax); }
      disk := disk[nb := Leaf([Extent(l, 1, p)], leafMax)];
      root := Inner(1, root.ix + [Index(l, nb)], root.max);
      return true;
    }
  }

  lemma LeafThere(disk: map<nat, Node>, root: Node, i: nat)
    requires root.Inner? && root.depth == 1 && TreeOk(disk, root) && i < |root.ix|
    ensures root.ix[i].leaf in disk && disk[root.ix[i].leaf] == LeafNode(disk, root.ix, i)
  {
    assert LeafOk(disk, root.ix, i);
  }

  lemma SiblingTidy(disk: map<nat, Node>, root: Node, l: nat, p: nat, nb: nat, max: nat)
    requires root.Inner? && root.depth == 1 && TreeOk(disk, root) && l < LIMIT && p > 0
    requires nb !in disk && max > 0 && |root.ix| < ROOT_MAX && !HasRoom(ChosenLeaf(disk, root, l), l, p)
    requires Before(ChosenLeaf(disk, root, l).es, l) == |ChosenLeaf(disk, root, l).es| && Tidy(disk, root, l, p)
    ensures TreeOk(disk[nb := Leaf([Extent(l, 1, p)], max)], Inner(1, root.ix + [Index(l, nb)], ROOT_MAX))
  {
    LastChosen(root.ix, l);
    assert LeafOk(disk, root.ix, |root.ix| - 1);
    hide Before, HasRoom;
    SiblingTree(disk, root, l, p, nb, max);
  }

  /** An accepted sibling is never for a block before the first key. */
  lemma SiblingAfterFirst(disk: map<nat, Node>, root: Node, l: nat)
    requires root.Inner? && root.depth == 1 && TreeOk(disk, root)
    requires Before(ChosenLeaf(disk, root, l).es, l) == |ChosenLeaf(disk, root, l).es|
    ensures root.ix[0].b <= l
  {
    var i := Chosen(root.ix, l);
    assert LeafOk(disk, root.ix, i);
    BeforeSplits(LeafNode(disk, root.ix, i).es, l);
    hide Before;
    assert root.ix[i].b <= LeafNode(disk, root.ix, i).es[0].b < l;
    assert i > 0 ==> root.ix[0].b < root.ix[i].b;
  }

  /** What IntoLeaf makes of a list that does not cover the block. */
  lemma Added(es: seq<Extent>, l: nat, p: nat, out: seq<Extent>, lo: nat, hi: nat)
    requires ExtentsOk(es) && NoneCovers(es, l) && p > 0 && Within(es, lo, hi) && lo <= l < hi
    requires out == if Extends(es, l, p) then Grown(es, l) else Inserted(es, l, p)
    ensures ExtentsOk(out) && Within(out, lo, hi)
  {
    hide Find, Before;
    if Extends(es, l, p) { GrownOk(es, l, p, lo, hi); } else { InsertedOk(es, l, p, lo, hi); }
  }

  lemma AddedSize(es: seq<Extent>, l: nat, p: nat)
    ensures Extends(es, l, p) ==> |Grown(es, l)| == |es| > 0
    ensures |Inserted(es, l, p)| == |es| + 1
  {
  }

  lemma KeysOf(es: seq<Extent>)
    requires ExtentsOk(es)
    ensures forall i, j :: 0 <= i < j < |es| ==> es[i].b < es[j].b
  {
    forall i, j | 0 <= i < j < |es| ensures es[i].b < es[j].b { assert ExtentOk(es[i]) && End(es[i]) <= es[j].b; }
  }

  lemma AddedToRoot(disk: map<nat, Node>, root: Node, l: nat, p: nat, es: seq<Extent>)
    requires root.Leaf? && TreeOk(disk, root) && Bmap(disk, root, l) == 0 && l < LIMIT && p > 0 && HasRoom(root, l, p)
    requires es == if Extends(root.es, l, p) then Grown(root.es, l) else Inserted(root.es, l, p)
    ensures Mapped(disk, root, disk, Leaf(es, root.max), l, p) <==> Sound(disk, root, l, p)
    ensures Tidy(disk, root, l, p) ==> TreeOk(disk, Leaf(es, root.max))
  {
    hide Find, Before, Extends, Grown, Inserted, NoneCovers, CoveredBefore;
    BmapLeaf(disk, root, l);
    KeysOf(root.es);
    AddedSize(root.es, l, p);
    forall x: nat
      ensures Bmap(disk, Leaf(es, root.max), x) == Find(es, x) && Bmap(disk, root, x) == Find(root.es, x)
      ensures (Find(es, l) == p <==> !CoveredBefore(root.es, l)) && (x != l ==> Find(es, x) == Find(root.es, x))
    {
      BmapLeaf(disk, root, x);
      BmapLeaf(disk, Leaf(es, root.max), x);
      UnwrittenInsert(root.es, l, p, x);
    }
    if Tidy(disk, root, l, p) { Added(root.es, l, p, es, 0, LIMIT); }
  }

  lemma AddedBelow(disk: map<nat, Node>, root: Node, l: nat, p: nat, es: seq<Extent>)
    requires root.Inner? && root.depth == 1 && TreeOk(disk, root) && Bmap(disk, root, l) == 0 && l < LIMIT && p > 0
    requires HasRoom(ChosenLeaf(disk, root, l), l, p)
    requires es == if Extends(ChosenLeaf(disk, root, l).es, l, p) then Grown(ChosenLeaf(disk, root, l).es, l)
                   else Inserted(ChosenLeaf(disk, root, l).es, l, p)
    ensures Mapped(disk, root, disk[root.ix[Chosen(root.ix, l)].leaf := Leaf(es, ChosenLeaf(disk, root, l).max)], root,
                   l, p)
            <==> Sound(disk, root, l, p)
    ensures Tidy(disk, root, l, p) ==>
              TreeOk(disk[root.ix[Chosen(root.ix, l)].leaf := Leaf(es, ChosenLeaf(disk, root, l).max)], root)
  {
    HoleInLeaf(disk, root, l);
    hide Find, Before, Extends, Grown, Inserted, Pick, Mapped, NoneCovers, CoveredBefore;
    ChosenRange(root.ix, l);
    var i := Chosen(root.ix, l);
    var n := ChosenLeaf(disk, root, l);
    KeysOf(n.es);
    AddedSize(n.es, l, p);
    forall x: nat
      ensures (Find(es, l) == p <==> !CoveredBefore(n.es, l)) && (x != l ==> Find(es, x) == Find(n.es, x))
    {
      UnwrittenInsert(n.es, l, p, x);
    }
    LeafReplaced(disk, root, l, p, es);
    if Tidy(disk, root, l, p) {
      Added(n.es, l, p, es, root.ix[i].b, Upper(root.ix, i));
      LeafKept(disk, root, l, es);
    }
  }

  lemma PushedRoom(disk: map<nat, Node>, root: Node, r0: Node, l: nat, p: nat)
    requires root.Inner? && root.depth == 1 && |root.ix| == 1 && TreeOk(disk, root)
    requires r0.Leaf? && LeafNode(disk, root.ix, 0).es == r0.es && |r0.es| == ROOT_MAX == r0.max
    requires root.ix[0].b == r0.es[0].b
    requires LeafNode(disk, root.ix, 0).max > ROOT_MAX && !HasRoom(r0, l, p)
    ensures Accepts(disk, root, l, p, 0)
    ensures Sound(disk, root, l, p) <==> r0.es[0].b <= l && !CoveredBefore(r0.es, l)
    ensures Tidy(disk, root, l, p) <==> r0.es[0].b <= l && NoneCovers(r0.es, l)
  {
    hide Extends, Pick;
    assert Chosen(root.ix, l) == 0;
  }

  lemma MappedAfterPush(d0: map<nat, Node>, r0: Node, d1: map<nat, Node>, r1: Node, d2: map<nat, Node>, r2: Node,
                        l: nat, p: nat)
    requires forall x: nat :: Bmap(d1, r1, x) == Bmap(d0, r0, x)
    ensures Mapped(d0, r0, d2, r2, l, p) <==> Mapped(d1, r1, d2, r2, l, p)
  {
    hide Bmap;
  }
}
