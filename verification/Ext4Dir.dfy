/** ext4 hashed directories in place: a root index over leaves, or over one level of index nodes
    (kernel/fs/ext4.c:1106-1185). The two-level index is read as one flat index, to which everything about
    a single level applies. */
module Ext4Dir {
  import opened Ext4Htree

  // ---- the flat index ----------------------------------------------------------------------------

  function NodeAt(nodes: map<nat, seq<Slot>>, b: nat): seq<Slot> { if b in nodes then nodes[b] else [] }

  /** A node's entries; the first one's key is that of the root entry that leads to the node. */
  function FlatNode(ns: seq<Slot>, key: nat): (r: seq<Slot>)
    ensures |r| == |ns|
  {
    if ns == [] then [] else ns[0 := Slot(key, ns[0].blk)]
  }

  predicate NodesOk(root: seq<Slot>, nodes: map<nat, seq<Slot>>) {
    && |root| > 0 && (forall i :: 0 <= i < |root| ==> NodeAt(nodes, root[i].blk) != [])
    && (forall i, j :: 0 <= i < j < |root| ==> root[i].blk != root[j].blk)
  }

  /** The entries of the first `n` nodes. */
  function Flat(root: seq<Slot>, nodes: map<nat, seq<Slot>>, n: nat): seq<Slot>
    requires n <= |root|
  {
    if n == 0 then [] else Flat(root, nodes, n - 1) + FlatNode(NodeAt(nodes, root[n - 1].blk), Key(root, n - 1))
  }

  /** Where entry `j` of node `i` is in the flat index. */
  function FlatPlace(root: seq<Slot>, nodes: map<nat, seq<Slot>>, i: nat, j: nat): nat
    requires i < |root|
  {
    |Flat(root, nodes, i)| + j
  }

  lemma {:induction false} FlatAt(root: seq<Slot>, nodes: map<nat, seq<Slot>>, n: nat, i: nat, j: nat)
    requires i < n <= |root| && j < |NodeAt(nodes, root[i].blk)|
    ensures FlatPlace(root, nodes, i, j) < |Flat(root, nodes, n)|
    ensures Flat(root, nodes, n)[FlatPlace(root, nodes, i, j)] == FlatNode(NodeAt(nodes, root[i].blk), Key(root, i))[j]
  {
    hide FlatNode, NodeAt, Key;
    if i < n - 1 { FlatAt(root, nodes, n - 1, i, j); }
  }

  /** Two descents, through the root and through the node it leads to, are one in the flat index. */
  lemma TwoDescents(root: seq<Slot>, nodes: map<nat, seq<Slot>>, h: nat)
    requires NodesOk(root, nodes) && IndexOk(Flat(root, nodes, |root|))
    ensures var i := Descend(root, h);
            NodeAt(nodes, root[i].blk) != [] &&
            FlatPlace(root, nodes, i, Descend(NodeAt(nodes, root[i].blk), h)) == Descend(Flat(root, nodes, |root|), h)
  {
    var i := Descend(root, h);
    var node := NodeAt(nodes, root[i].blk);
    assert node != [];
    hide NodesOk, IndexOk, Flat, NodeAt;
    var j := Descend(node, h);
    var flat, p := Flat(root, nodes, |root|), FlatPlace(root, nodes, i, j);
    FlatAt(root, nodes, |root|, i, j);
    FlatStart(root, nodes);
    NextEntry(root, nodes, i, j, h);
    hide Descend, FlatPlace;
    DescendFinds(flat, h, p);
  }

  lemma FlatStart(root: seq<Slot>, nodes: map<nat, seq<Slot>>)
    ensures |Flat(root, nodes, 0)| == 0
  {
  }

  /** What comes after the entry a descent picks has a larger key. */
  lemma NextEntry(root: seq<Slot>, nodes: map<nat, seq<Slot>>, i: nat, j: nat, h: nat)
    requires NodesOk(root, nodes) && i < |root| && j < |NodeAt(nodes, root[i].blk)|
    requires i + 1 < |root| ==> root[i + 1].hash > h
    requires j + 1 < |NodeAt(nodes, root[i].blk)| ==> NodeAt(nodes, root[i].blk)[j + 1].hash > h
    ensures FlatPlace(root, nodes, i, j) + 1 < |Flat(root, nodes, |root|)|
            ==> Key(Flat(root, nodes, |root|), FlatPlace(root, nodes, i, j) + 1) > h
  {
    assert i + 1 < |root| ==> NodeAt(nodes, root[i + 1].blk) != [];
    hide NodesOk, NodeAt;
    if j + 1 < |NodeAt(nodes, root[i].blk)| {
      hide Flat;
      FlatAt(root, nodes, |root|, i, j + 1);
    } else {
      assert |Flat(root, nodes, i + 1)| == FlatPlace(root, nodes, i, j) + 1;
      hide Flat;
      if i + 1 < |root| { FlatAt(root, nodes, |root|, i + 1, 0); }
    }
  }

  lemma {:induction false} FlatFrame(root: seq<Slot>, nodes: map<nat, seq<Slot>>, b: nat, ns: seq<Slot>, n: nat)
    requires n <= |root| && forall k :: 0 <= k < n ==> root[k].blk != b
    ensures Flat(root, nodes[b := ns], n) == Flat(root, nodes, n)
  {
    hide FlatNode, Key;
    if n > 0 { FlatFrame(root, nodes, b, ns, n - 1); }
  }

  /** An entry put behind another in its node is put behind it in the flat index. */
  lemma {:induction false} FlatSplit(root: seq<Slot>, nodes: map<nat, seq<Slot>>, n: nat, i: nat, j: nat, key: nat,
                                     nb: nat)
    requires i < n <= |root| && j < |NodeAt(nodes, root[i].blk)|
    requires forall k :: 0 <= k < n && k != i ==> root[k].blk != root[i].blk
    ensures FlatPlace(root, nodes, i, j) < |Flat(root, nodes, n)|
    ensures Flat(root, nodes[root[i].blk := SplitIndex(NodeAt(nodes, root[i].blk), j, key, nb)], n)
            == SplitIndex(Flat(root, nodes, n), FlatPlace(root, nodes, i, j), key, nb)
  {
    hide Flat, NodeAt, FlatNode, Key, SplitIndex;
    FlatAt(root, nodes, n, i, j);
    var b, ns := root[i].blk, SplitIndex(NodeAt(nodes, root[i].blk), j, key, nb);
    FlatLast(root, nodes, n);
    FlatLast(root, nodes[b := ns], n);
    NodePut(nodes, b, ns, root[n - 1].blk);
    var last := FlatNode(NodeAt(nodes, root[n - 1].blk), Key(root, n - 1));
    if i < n - 1 {
      FlatSplit(root, nodes, n - 1, i, j, key, nb);
      SplitAppend(Flat(root, nodes, n - 1), last, FlatPlace(root, nodes, i, j), key, nb);
    } else {
      FlatFrame(root, nodes, b, ns, i);
      SplitFlatNode(NodeAt(nodes, b), Key(root, i), j, key, nb);
      SplitBehind(Flat(root, nodes, i), last, j, key, nb);
    }
  }

  lemma FlatLast(root: seq<Slot>, nodes: map<nat, seq<Slot>>, n: nat)
    requires 0 < n <= |root|
    ensures Flat(root, nodes, n)
            == Flat(root, nodes, n - 1) + FlatNode(NodeAt(nodes, root[n - 1].blk), Key(root, n - 1))
  {
  }

  lemma NodePut(nodes: map<nat, seq<Slot>>, b: nat, ns: seq<Slot>, c: nat)
    ensures NodeAt(nodes[b := ns], c) == if c == b then ns else NodeAt(nodes, c)
  {
  }

  lemma NodesSplit(root: seq<Slot>, nodes: map<nat, seq<Slot>>, i: nat, j: nat, key: nat, nb: nat)
    requires NodesOk(root, nodes) && i < |root| && j < |NodeAt(nodes, root[i].blk)|
    ensures NodesOk(root, nodes[root[i].blk := SplitIndex(NodeAt(nodes, root[i].blk), j, key, nb)])
    ensures forall k :: 0 <= k < |root| && k != i ==> root[k].blk != root[i].blk
  {
  }

  lemma SplitFlatNode(ns: seq<Slot>, k: nat, j: nat, key: nat, nb: nat)
    requires j < |ns|
    ensures FlatNode(SplitIndex(ns, j, key, nb), k) == SplitIndex(FlatNode(ns, k), j, key, nb)
  {
  }

  lemma SplitAppend(a: seq<Slot>, b: seq<Slot>, p: nat, key: nat, nb: nat)
    requires p < |a|
    ensures SplitIndex(a + b, p, key, nb) == SplitIndex(a, p, key, nb) + b
  {
  }

  lemma SplitBehind(a: seq<Slot>, b: seq<Slot>, j: nat, key: nat, nb: nat)
    requires j < |b|
    ensures SplitIndex(a + b, |a| + j, key, nb) == a + SplitIndex(b, j, key, nb)
  {
  }

  // ---- the index of either depth -----------------------------------------------------------------

  /** `ix` is what the index says: the root's entries, or those of its nodes. */
  ghost predicate IndexIs(ix: seq<Slot>, levels: nat, root: seq<Slot>, nodes: map<nat, seq<Slot>>) {
    if levels == 0 then ix == root else NodesOk(root, nodes) && ix == Flat(root, nodes, |root|)
  }

  /** The entries descended through last: the root's, or those of the node its entry `i` leads to. */
  function Entries(levels: nat, root: seq<Slot>, nodes: map<nat, seq<Slot>>, i: nat): seq<Slot>
    requires i < |root|
  {
    if levels == 0 then root else NodeAt(nodes, root[i].blk)
  }

  /** Every entry of the directory is in the leaf its hash leads to, through either number of levels. */
  lemma FoundBelow(hash: Hash, ix: seq<Slot>, levels: nat, root: seq<Slot>, nodes: map<nat, seq<Slot>>,
                   blocks: map<nat, seq<Rec>>, end: nat, e: Entry)
    requires DirOk(hash, ix, blocks, end) && IndexIs(ix, levels, root, nodes) && e in All(ix, blocks)
    ensures |root| > 0
    ensures var ns := Entries(levels, root, nodes, Descend(root, hash(e.name)));
            ns != [] && e in LiveAt(blocks, ns[Descend(ns, hash(e.name))].blk)
  {
    hide All, LeafOk, LiveAt;
    Findable(hash, ix, blocks, end, e);
    WhereTo(ix, levels, root, nodes, hash(e.name));
  }

  /** The leaf reached through the root, and a node if there is one, is the one the flat index gives. */
  lemma WhereTo(ix: seq<Slot>, levels: nat, root: seq<Slot>, nodes: map<nat, seq<Slot>>, h: nat)
    requires IndexOk(ix) && IndexIs(ix, levels, root, nodes)
    ensures |root| > 0
    ensures var i := Descend(root, h);
            var ns := Entries(levels, root, nodes, i);
            && ns != [] && ix[Descend(ix, h)].blk == ns[Descend(ns, h)].blk
            && (levels == 0 ==> Descend(ix, h) == Descend(ns, h))
            && (levels > 0 ==> Descend(ix, h) == FlatPlace(root, nodes, i, Descend(ns, h)))
  {
    assert |root| > 0;
    if levels > 0 {
      hide IndexOk, Flat, NodeAt, FlatPlace, NodesOk;
      var i := Descend(root, h);
      TwoDescents(root, nodes, h);
      var ns := NodeAt(nodes, root[i].blk);
      FlatAt(root, nodes, |root|, i, Descend(ns, h));
    }
  }

  /** A directory with `levels` index levels below the root. */
  class HashedDir {
    const hash: Hash
    const end: nat
    const levels: nat
    const rootLimit: nat
    const nodeLimit: nat
    var root: seq<Slot>
    var nodes: map<nat, seq<Slot>>
    var blocks: map<nat, seq<Rec>>
    ghost var ix: seq<Slot>

    /** Deeper trees than one level of nodes are not touched. */
    ghost predicate Valid()
      reads this
    {
      levels <= 1 ==> DirOk(hash, ix, blocks, end) && IndexIs(ix, levels, root, nodes)
    }

    /** A directory with one empty leaf `leaf`, below a node `node` if there are two levels. */
    constructor (hash: Hash, end: nat, levels: nat, rootLimit: nat, nodeLimit: nat, leaf: nat, node: nat)
      requires end >= 8
      ensures Valid() && this.hash == hash && this.end == end && this.levels == levels && All(ix, blocks) == multiset{}
    {
      this.hash, this.end, this.levels, this.rootLimit, this.nodeLimit := hash, end, levels, rootLimit, nodeLimit;
      root := [Slot(0, if levels == 0 then leaf else node)];
      nodes := if levels == 0 then map[] else map[node := [Slot(0, leaf)]];
      blocks := map[leaf := [Rec(end, EMPTY)]];
      ix := [Slot(0, leaf)];
      new;
      One(Rec(end, EMPTY));
      AllOne(Slot(0, leaf), blocks);
      assert levels > 0 ==> Flat(root, nodes, 0) == [] && Flat(root, nodes, 1) == [Slot(0, leaf)];
    }

    /** The leaf the name of `e` belongs in. */
    ghost function LeafOf(e: Entry): seq<Rec>
      requires |ix| > 0
      reads this
    {
      LiveLeaf(blocks, ix[Descend(ix, hash(e.name))].blk)
    }

    lemma LeafOfIs(e: Entry)
      requires DirOk(hash, ix, blocks, end)
      ensures IndexOk(ix) && |ix| > 0 && LeafOf(e) == LiveLeaf(blocks, ix[Descend(ix, hash(e.name))].blk)
    {
    }

    /** Whether the index entries on the way to `h` leave room for one more. */
    predicate IndexRoom(h: nat)
      requires |root| > 0
      reads this
    {
      |Entries(levels, root, nodes, Descend(root, h))| < if levels == 0 then rootLimit else nodeLimit
    }

    /** The last entry whose key is not above the hash. */
    static method Pick(s: seq<Slot>, h: nat) returns (p: nat)
      requires |s| > 0
      ensures p == Descend(s, h)
    {
      p := 0;
      for i := 1 to |s|
        invariant p < i && (p == 0 || s[p].hash <= h) && forall j :: p < j < i ==> s[j].hash > h
      {
        if s[i].hash <= h { p := i; }
      }
      LastOf(s, h, p);
    }

    /** Down to the leaf: the root entry, the entry below it, and where that is in the flat index. */
    method DescendTo(h: nat) returns (i: nat, j: nat, ghost p: nat)
      requires levels <= 1 && IndexOk(ix) && IndexIs(ix, levels, root, nodes)
      ensures |root| > 0 && i == Descend(root, h) && Entries(levels, root, nodes, i) != []
      ensures j == Descend(Entries(levels, root, nodes, i), h) && p == Descend(ix, h)
      ensures Entries(levels, root, nodes, i)[j].blk == ix[p].blk
      ensures levels == 0 ==> p == j
      ensures levels > 0 ==> NodesOk(root, nodes) && p == FlatPlace(root, nodes, i, j)
    {
      WhereTo(ix, levels, root, nodes, h);
      hide Descend, IndexOk, Flat, NodesOk;
      p := Descend(ix, h);
      i := Pick(root, h);
      j := Pick(Entries(levels, root, nodes, i), h);
    }

    /** Add an entry. Refusal changes nothing. On success no entry is lost or moved out of reach; the new
        one is there exactly if it had room in its leaf or in its half of the split leaf. */
    method AddEntry(e: Entry, nb: nat) returns (ok: bool)
      requires Valid() && EntryOk(e) && (nb == 0 || nb !in blocks)
      modifies this
      ensures levels > 1 ==> !ok
      ensures levels <= 1 ==> old(|root| > 0 && |ix| > 0)
      ensures levels <= 1 ==>
                ok == old(HasRoom(LeafOf(e), e)
                          || (IndexRoom(hash(e.name)) && Splittable(SortedLeaf(hash, LeafOf(e))) && nb > 0))
      ensures !ok ==> ix == old(ix) && root == old(root) && nodes == old(nodes) && blocks == old(blocks)
      ensures Valid()
      ensures ok ==> All(ix, blocks) == old(All(ix, blocks))
                                        + if old(Stored(hash, LeafOf(e), e, end)) then multiset{e} else multiset{}
    {
      hide DirOk, Live, InRange, All, HasRoom, SortOf, Hashed, Splittable, Total, Descend, FlatPlace, NodesOk, NodeAt,
           IndexIs, IndexOk;
      if levels > 1 { return false; }
      LeafOfIs(e);
      var i, j, p := DescendTo(hash(e.name));
      DescendRange(ix, hash(e.name));
      LeafTiled(hash, ix, blocks, end, p);
      ok := AddBelow(e, nb, i, j, p);
    }

    /** Into the leaf at entry `j` below root entry `i`, splitting it if it is full. */
    method AddBelow(e: Entry, nb: nat, i: nat, j: nat, ghost p: nat) returns (ok: bool)
      requires Valid() && levels <= 1 && EntryOk(e) && (nb == 0 || nb !in blocks)
      requires p < |ix| && InRange(ix, p, hash(e.name)) && ix[p].blk in blocks && At(i, j, p)
      modifies this
      ensures ok == old(HasRoom(blocks[ix[p].blk], e)
                        || (|Entries(levels, root, nodes, i)| < (if levels == 0 then rootLimit else nodeLimit)
                            && Splittable(SortedLeaf(hash, blocks[ix[p].blk])) && nb > 0))
      ensures !ok ==> ix == old(ix) && root == old(root) && nodes == old(nodes) && blocks == old(blocks)
      ensures Valid()
      ensures ok ==>
                All(ix, blocks) == old(All(ix, blocks))
                                   + if old(Stored(hash, blocks[ix[p].blk], e, end)) then multiset{e} else multiset{}
    {
      hide DirOk, Need, Live, Tiled, InRange, All, Insert, HasRoom, SortOf, Hashed, Splittable, SplitKey, Lower, Upper,
           Packed, Total,
           LeafOk, FlatPlace, NodesOk, NodeAt, IndexIs, IndexOk;
      LeafTiled(hash, ix, blocks, end, p);
      var entries := Entries(levels, root, nodes, i);
      var b := entries[j].blk;
      var done, out := LeafInsert(blocks[b], e);
      if done {
        InsertOk(blocks[b], e, end);
        LeafChanged(hash, ix, blocks, end, p, out, e);
        blocks := blocks[b := out];
        return true;
      }
      if |entries| >= if levels == 0 then rootLimit else nodeLimit { return false; }
      ok := SplitAndAdd(e, nb, i, j, p);
    }

    /** Split the full leaf at entry `j` below root entry `i` by hash and add the entry to its half. */
    method SplitAndAdd(e: Entry, nb: nat, i: nat, j: nat, ghost p: nat) returns (ok: bool)
      requires Valid() && levels <= 1 && EntryOk(e) && (nb == 0 || nb !in blocks)
      requires p < |ix| && InRange(ix, p, hash(e.name)) && ix[p].blk in blocks && At(i, j, p)
      modifies this
      ensures ok == old(Splittable(SortedLeaf(hash, blocks[ix[p].blk])) && nb > 0)
      ensures !ok ==> ix == old(ix) && root == old(root) && nodes == old(nodes) && blocks == old(blocks)
      ensures ok ==> Valid()
      ensures ok ==> All(ix, blocks) == old(All(ix, blocks)) +
                       if Total(Half(hash, old(SortedLeaf(hash, blocks[ix[p].blk])), e)) + Need(|e.name|) <= end
                       then multiset{e} else multiset{}
    {
      hide Need, Live, Tiled, InRange, All, Insert, HasRoom, SortOf, Hashed, Splittable, SplitKey, Lower, Upper, Packed,
           Total, IndexOk,
           LeafOk, DirOk, Ents, SplitIndex, IndexIs, FlatPlace, NodesOk, NodeAt;
      LeafTiled(hash, ix, blocks, end, p);
      var b := Entries(levels, root, nodes, i)[j].blk;
      ghost var s := SortedLeaf(hash, blocks[b]);
      var cut, low, high, key := Halve(blocks[b]);
      if !cut { return false; }
      if nb == 0 { return false; }
      HalvesFit(hash, blocks[b], end, s);
      SplitDir(hash, ix, blocks, end, p, s, nb);
      SplitInRange(hash, ix, blocks, end, p, s, nb, hash(e.name));
      blocks := blocks[b := low][nb := high];
      InsertSlot(i, j, p, key, nb);
      if hash(e.name) < key {
        PutName(e, b, p, Lower(s));
      } else {
        PutName(e, nb, p + 1, Upper(s));
      }
      return true;
    }

    /** The entries of a leaf, sorted by hash and packed into two; false if all hashes are one. */
    method Halve(leaf: seq<Rec>) returns (cut: bool, low: seq<Rec>, high: seq<Rec>, key: nat)
      requires Tiled(leaf, end) && end >= 8
      ensures cut == Splittable(SortedLeaf(hash, leaf))
      ensures cut ==>
                low == Packed(Lower(SortedLeaf(hash, leaf)), end) && high == Packed(Upper(SortedLeaf(hash, leaf)), end)
      ensures cut ==> key == SplitKey(SortedLeaf(hash, leaf))
    {
      hide Need, Live, Tiled, SortOf, Hashed, Splittable, Lower, Upper, Packed, Total, Ents;
      var h := Collect(hash, leaf);
      Sort(h);
      ghost var s := h[..];
      var mid := FindMid(h);
      SplittableIs(s);
      if mid == 0 || mid >= h.Length { return false, [], [], 0; }
      HalvesFit(hash, leaf, end, s);
      HalvesAre(s);
      assert h[..mid] == s[..mid] && h[mid..] == s[mid..];
      cut, key := true, h[mid].hash;
      low := Pack(h[..mid], end);
      high := Pack(h[mid..], end);
    }

    /** Entry `j` below root entry `i` is entry `p` of the flat index. */
    ghost predicate At(i: nat, j: nat, p: nat)
      requires p < |ix|
      reads this
    {
      && i < |root| && j < |Entries(levels, root, nodes, i)| && Entries(levels, root, nodes, i)[j].blk == ix[p].blk
      && (levels == 0 ==> p == j) && (levels > 0 ==> NodesOk(root, nodes) && p == FlatPlace(root, nodes, i, j))
    }

    /** The new index entry behind the one we came through. */
    method InsertSlot(i: nat, j: nat, ghost p: nat, key: nat, nb: nat)
      requires levels <= 1 && IndexIs(ix, levels, root, nodes) && p < |ix| && At(i, j, p)
      modifies this`root, this`nodes, this`ix
      ensures IndexIs(ix, levels, root, nodes) && ix == SplitIndex(old(ix), p, key, nb)
    {
      hide SplitIndex, Flat;
      ix := SplitIndex(ix, p, key, nb);
      if levels == 0 {
        root := SplitIndex(root, j, key, nb);
      } else {
        NodesSplit(root, nodes, i, j, key, nb);
        FlatSplit(root, nodes, |root|, i, j, key, nb);
        hide NodesOk;
        nodes := nodes[root[i].blk := SplitIndex(NodeAt(nodes, root[i].blk), j, key, nb)];
      }
    }

    /** The new name after a split, if it fits; a failure here goes unnoticed. */
    method PutName(e: Entry, b: nat, ghost q: nat, ghost half: seq<Entry>)
      requires DirOk(hash, ix, blocks, end) && EntryOk(e) && q < |ix| && ix[q].blk == b && b in blocks
      requires InRange(ix, q, hash(e.name))
      requires blocks[b] == Packed(half, end) && Total(half) <= end && forall i :: 0 <= i < |half| ==> EntryOk(half[i])
      modifies this`blocks
      ensures DirOk(hash, ix, blocks, end)
      ensures All(ix, blocks)
              == old(All(ix, blocks)) + if Total(half) + Need(|e.name|) <= end then multiset{e} else multiset{}
    {
      hide Need, Live, Tiled, InRange, All, Insert, HasRoom, Packed, Total, IndexOk, LeafOk;
      LeafTiled(hash, ix, blocks, end, q);
      PackInsert(half, e, end);
      var done, out := LeafInsert(blocks[b], e);
      if done {
        InsertOk(blocks[b], e, end);
        LeafChanged(hash, ix, blocks, end, q, out, e);
        blocks := blocks[b := out];
      }
    }
  }

  function LiveLeaf(blocks: map<nat, seq<Rec>>, b: nat): seq<Rec> { if b in blocks then blocks[b] else [] }
}
