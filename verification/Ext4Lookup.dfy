/** Lookup in extent trees of every depth the code follows (kernel/fs/ext4.c:513-540): it finds what some extent of
    a reachable leaf maps, and nothing else. */
module Ext4Lookup {
  import opened Ext4Extents

  /** Where the keys of entry `i` end in a node whose keys end at `hi`. */
  function KeysEnd(ix: seq<Index>, i: nat, hi: nat): nat
    requires i < |ix|
  {
    if i + 1 < |ix| then ix[i + 1].b else hi
  }

  /** A node of at most `levels` levels whose extents are in order and in [lo, hi), each child's between its key
      and the next. */
  ghost predicate Ordered(disk: map<nat, Node>, n: Node, lo: nat, hi: nat, levels: nat)
    decreases levels, 0
  {
    levels > 0 &&
    match n
    case Leaf(es, _) => ExtentsOk(es) && Within(es, lo, hi)
    case Inner(_, ix, _) =>
      && (forall i, j :: 0 <= i < j < |ix| ==> ix[i].b < ix[j].b)
      && (forall i :: 0 <= i < |ix| ==> lo <= ix[i].b < hi)
      && forall i :: 0 <= i < |ix| ==> ix[i].leaf in disk && ChildOrdered(disk, ix, i, hi, levels - 1)
  }

  ghost predicate ChildOrdered(disk: map<nat, Node>, ix: seq<Index>, i: nat, hi: nat, levels: nat)
    requires i < |ix|
    decreases levels, 1
  {
    ix[i].leaf in disk && Ordered(disk, disk[ix[i].leaf], ix[i].b, KeysEnd(ix, i, hi), levels)
  }

  predicate ExtentMaps(e: Extent, l: nat, p: nat) {
    e.len <= 32768 && e.b <= l < e.b + e.len && p == e.start + (l - e.b)
  }

  /** Some written extent of a leaf reachable from `n` maps block `l` to `p`. */
  ghost predicate Maps(disk: map<nat, Node>, n: Node, l: nat, p: nat, levels: nat)
    decreases levels, 0
  {
    levels > 0 &&
    match n
    case Leaf(es, _) => exists k :: 0 <= k < |es| && ExtentMaps(es[k], l, p)
    case Inner(_, ix, _) => exists i :: 0 <= i < |ix| && ix[i].leaf in disk && ChildMaps(disk, ix, i, l, p, levels - 1)
  }

  ghost predicate ChildMaps(disk: map<nat, Node>, ix: seq<Index>, i: nat, l: nat, p: nat, levels: nat)
    requires i < |ix|
    decreases levels, 1
  {
    ix[i].leaf in disk && Maps(disk, disk[ix[i].leaf], l, p, levels)
  }

  /** Lookup finds exactly what is mapped. */
  lemma {:induction false} LookupExact(disk: map<nat, Node>, n: Node, lo: nat, hi: nat, l: nat, p: nat, levels: nat)
    requires Ordered(disk, n, lo, hi, levels) && p > 0
    ensures Lookup(disk, n, l, levels) == p <==> Maps(disk, n, l, p, levels)
    decreases levels
  {
    match n
    case Leaf(es, _) => FindMaps(es, l, p);
    case Inner(_, ix, _) =>
      hide Pick;
      var q := Pick(ix, l);
      forall i | 0 <= i < |ix| && ix[i].leaf in disk && ChildMaps(disk, ix, i, l, p, levels - 1) ensures i == q {
        assert ChildOrdered(disk, ix, i, hi, levels - 1);
        MapsWithin(disk, disk[ix[i].leaf], ix[i].b, KeysEnd(ix, i, hi), l, p, levels - 1);
        Picks(ix, hi, l, i);
      }
      if q >= 0 {
        assert ChildOrdered(disk, ix, q, hi, levels - 1);
        LookupExact(disk, disk[ix[q].leaf], ix[q].b, KeysEnd(ix, q, hi), l, p, levels - 1);
      }
  }

  lemma Picks(ix: seq<Index>, hi: nat, l: nat, i: nat)
    requires (forall j, k :: 0 <= j < k < |ix| ==> ix[j].b < ix[k].b) && i < |ix|
    requires ix[i].b <= l < KeysEnd(ix, i, hi)
    ensures Pick(ix, l) == i
  {
    forall j | i < j < |ix| ensures ix[j].b > l { if j > i + 1 { assert ix[i + 1].b < ix[j].b; } }
    PickIs(ix, l, i);
  }

  /** What a node maps lies between its bounds. */
  lemma {:induction false} MapsWithin(disk: map<nat, Node>, n: Node, lo: nat, hi: nat, l: nat, p: nat, levels: nat)
    requires Ordered(disk, n, lo, hi, levels) && Maps(disk, n, l, p, levels)
    ensures lo <= l < hi
    decreases levels
  {
    match n
    case Leaf(es, _) =>
      var k :| 0 <= k < |es| && ExtentMaps(es[k], l, p);
      assert lo <= es[k].b && End(es[k]) <= hi;
    case Inner(_, ix, _) =>
      var i :| 0 <= i < |ix| && ix[i].leaf in disk && ChildMaps(disk, ix, i, l, p, levels - 1);
      assert lo <= ix[i].b && KeysEnd(ix, i, hi) <= hi && ChildOrdered(disk, ix, i, hi, levels - 1);
      var child := disk[ix[i].leaf];
      assert Ordered(disk, child, ix[i].b, KeysEnd(ix, i, hi), levels - 1) && Maps(disk, child, l, p, levels - 1);
      hide Ordered, Maps, ChildOrdered, ChildMaps;
      MapsWithin(disk, child, ix[i].b, KeysEnd(ix, i, hi), l, p, levels - 1);
  }

  lemma FindMaps(es: seq<Extent>, l: nat, p: nat)
    requires ExtentsOk(es) && p > 0
    ensures Find(es, l) == p <==> exists k :: 0 <= k < |es| && ExtentMaps(es[k], l, p)
  {
    if k :| 0 <= k < |es| && Covers(es[k], l) {
      FindAt(es, k, l);
      hide Find;
      assert ExtentMaps(es[k], l, p) <==> Target(es[k], l) == p;
      forall j | 0 <= j < |es| && j != k ensures !ExtentMaps(es[j], l, p) { OneCovers(es, k, j, l); }
    } else {
      FindNone(es, l);
      hide Find;
      forall k | 0 <= k < |es| ensures !ExtentMaps(es[k], l, p) { assert !Covers(es[k], l); }
    }
  }

  lemma OneCovers(es: seq<Extent>, j: nat, k: nat, l: nat)
    requires ExtentsOk(es) && j < |es| && k < |es| && j != k && Covers(es[j], l)
    ensures !Covers(es[k], l)
  {
    assert if j < k then End(es[j]) <= es[k].b else End(es[k]) <= es[j].b;
  }

  lemma {:induction false} FindAt(es: seq<Extent>, k: nat, l: nat)
    requires ExtentsOk(es) && k < |es| && Covers(es[k], l)
    ensures Find(es, l) == Target(es[k], l)
  {
    if k > 0 {
      assert End(es[0]) <= es[k].b;
      FindAt(es[1..], k - 1, l);
    }
  }

  lemma {:induction false} FindNone(es: seq<Extent>, l: nat)
    requires forall k :: 0 <= k < |es| ==> !Covers(es[k], l)
    ensures Find(es, l) == 0
  {
    if es != [] { FindNone(es[1..], l); }
  }

  /** A block of a file maps to `p` exactly if an extent says so, in trees of up to five index levels. */
  lemma BmapExact(disk: map<nat, Node>, root: Node, hi: nat, l: nat, p: nat)
    requires Ordered(disk, root, 0, hi, 6) && p > 0
    ensures Bmap(disk, root, l) == p <==> Maps(disk, root, l, p, 6)
  {
    LookupExact(disk, root, 0, hi, l, p, 6);
  }
}
