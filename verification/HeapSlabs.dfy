/** kmalloc and kfree: size-class slabs with freelists, and large allocations, on top of the page layer
    (kernel/mm/heap.c:221-309, 313-423). */
module HeapSlabs {
  import opened HeapSlabSpec
  import opened Division
  import HeapPages

  datatype Slab = Slab(cls: nat, freeCount: nat, freelist: nat)

  datatype Large = Large(pages: nat, size: nat)

  type Slabs = map<nat, Slab>
  type Larges = map<nat, Large>
  type Freelists = map<nat, seq<nat>>
  type Regions = map<nat, nat>

  /** What `kmalloc` and `kfree` keep, apart from the lists of slabs with room: the slabs with their freelists
      in memory, the large allocations, the pages of both, the owner entries, and the live allocations with
      their counters. */
  datatype Heap = Heap(slabs: Slabs, mem: Memory, fls: Freelists, larges: Larges, regions: Regions, owner: seq<nat>,
                       allocs: seq<Alloc>, liveObjects: seq<int>, largeAllocs: int)

  /** A live allocation: object `idx` of a slab, or a large one. */
  datatype Alloc = Small(page: nat, idx: nat, cls: nat) | Big(page: nat, size: nat)

  // ---- the parts of the invariant --------------------------------------------------------------

  /** Every slab's freelist runs through exactly the objects `fls` says, as many as it counts. */
  ghost predicate SlabsOk(slabs: Slabs, mem: Memory, fls: Freelists) {
    fls.Keys == slabs.Keys && forall p :: p in slabs ==> SlabOk(slabs[p], mem, p, fls[p])
  }

  predicate SlabOk(s: Slab, mem: Memory, p: nat, fl: seq<nat>) {
    s.cls < CLASSES && s.freeCount == |fl| && Threaded(mem, p, s.cls, s.freelist, fl)
  }

  /** A slab is on the partial list of its class exactly if it has a free object. */
  ghost predicate ListsOk(slabs: Slabs, next: Links, prev: Links, partial: seq<int>, pls: seq<seq<nat>>) {
    && |partial| == CLASSES && |pls| == CLASSES
    && (forall c :: 0 <= c < CLASSES ==> Chain(next, prev, partial[c], pls[c]))
    && (forall c, p :: 0 <= c < CLASSES ==> (p in pls[c] <==> HasRoom(slabs, p, c)))
  }

  predicate HasRoom(slabs: Slabs, p: nat, c: nat) { p in slabs && slabs[p].cls == c && slabs[p].freeCount > 0 }

  /** Slabs and large allocations occupy the live pages, none of them two at once and none left over. */
  ghost predicate RegionsOk(regions: Regions, live: set<nat>) {
    && (forall p :: p in regions ==> regions[p] > 0 && HeapPages.PagesOf(p, regions[p]) <= live)
    && (forall p, q :: p in regions && q in regions && p != q ==> p + regions[p] <= q || q + regions[q] <= p)
    && (forall x :: x in live ==> Covered(regions, x))
  }

  /** Some slab or large allocation has the page. */
  ghost predicate Covered(regions: Regions, x: nat) { exists p :: p in regions && p <= x < p + regions[p] }

  ghost predicate RegionsAre(regions: Regions, slabs: Slabs, larges: Larges) {
    && (forall p :: p in regions <==> p in slabs || p in larges) && (forall p :: p in slabs ==> p !in larges)
    && (forall p :: p in slabs ==> regions[p] == SLAB_PAGES)
    && (forall p :: p in larges ==> regions[p] == larges[p].pages == LargePages(larges[p].size))
  }

  /** The owner entry of each page of a slab names the slab; those of a large allocation are tagged. */
  ghost predicate TagsOk(owner: seq<nat>, slabs: Slabs, larges: Larges) {
    && (forall p :: p in slabs ==> TaggedAs(owner, p, SLAB_PAGES, Tag(p)))
    && (forall p :: p in larges ==> TaggedAs(owner, p, larges[p].pages, LARGE_TAG))
  }

  predicate TaggedAs(owner: seq<nat>, p: nat, n: nat, v: nat) {
    p + n <= |owner| && forall x :: p <= x < p + n ==> owner[x] == v
  }

  const LARGE_TAG: nat := 1

  function Tag(p: nat): nat { p + 2 }

  /** The live allocations are exactly the objects that are on no freelist, and the large ones. */
  ghost predicate AllocsOk(allocs: seq<Alloc>, slabs: Slabs, fls: Freelists, larges: Larges) {
    && NoDup(allocs)
    && (forall a :: a in allocs <==> IsLive(a, slabs, fls, larges))
  }

  predicate NoDup(allocs: seq<Alloc>) { forall i, j :: 0 <= i < j < |allocs| ==> allocs[i] != allocs[j] }

  predicate IsLive(a: Alloc, slabs: Slabs, fls: Freelists, larges: Larges) {
    match a
    case Small(p, i, c) => p in slabs && p in fls && slabs[p].cls == c && c < CLASSES && i < Total(c) && i !in fls[p]
    case Big(p, size) => p in larges && larges[p].size == size
  }

  // ---- what is counted -------------------------------------------------------------------------

  function InClass(allocs: seq<Alloc>, c: nat): nat {
    if allocs == [] then 0
    else
      var a := allocs[|allocs| - 1];
      InClass(allocs[..|allocs| - 1], c) + if a.Small? && a.cls == c then 1 else 0
  }

  function BigOnes(allocs: seq<Alloc>): nat {
    if allocs == [] then 0 else BigOnes(allocs[..|allocs| - 1]) + if allocs[|allocs| - 1].Big? then 1 else 0
  }

  /** What an allocation is charged: the class size, or the size asked for. */
  function Charge(a: Alloc): nat {
    if a.Small? && a.cls < CLASSES then ClassSize(a.cls) else if a.Big? then a.size else 0
  }

  function Bytes(allocs: seq<Alloc>): nat {
    if allocs == [] then 0 else Bytes(allocs[..|allocs| - 1]) + Charge(allocs[|allocs| - 1])
  }

  /** The counters are the sums over the live allocations. */
  ghost predicate CountsOk(allocs: seq<Alloc>, liveObjects: seq<int>, largeAllocs: int) {
    && |liveObjects| == CLASSES && (forall c :: 0 <= c < CLASSES ==> liveObjects[c] == InClass(allocs, c))
    && largeAllocs == BigOnes(allocs)
  }

  /** Slabs, allocations, counters, regions and owner entries fit together. */
  ghost predicate DataOk(h: Heap) {
    && SlabsOk(h.slabs, h.mem, h.fls) && AllocsOk(h.allocs, h.slabs, h.fls, h.larges)
    && CountsOk(h.allocs, h.liveObjects, h.largeAllocs)
    && RegionsAre(h.regions, h.slabs, h.larges) && TagsOk(h.owner, h.slabs, h.larges)
  }

  // ---- addresses -------------------------------------------------------------------------------

  function Addr(a: Alloc): nat {
    if a.Small? then (if a.cls < CLASSES then ObjAddr(a.page, a.cls, a.idx) else 0) else a.page * PAGE + LARGE_HDR
  }

  function LargePages(size: nat): nat { (size + LARGE_HDR + PAGE - 1) / PAGE }

  /** A large allocation takes the fewest pages that hold it and its header. */
  lemma FewestPages(size: nat, n: nat)
    ensures n >= LargePages(size) <==> n * 4096 >= size + 32
  {
  }

  /** Where an allocation lies: in its region, past the header, aligned. */
  lemma InRegion(a: Alloc, regions: Regions, slabs: Slabs, fls: Freelists, larges: Larges)
    requires RegionsAre(regions, slabs, larges) && IsLive(a, slabs, fls, larges)
    ensures a.page in regions && Addr(a) % 16 == 0 && Addr(a) > 0
    ensures a.page * PAGE < Addr(a) && Addr(a) + Charge(a) <= (a.page + regions[a.page]) * PAGE
  {
    hide ObjAddr, Total, LargePages;
    if a.Small? {
      ObjInside(a.page, a.cls, a.idx);
    } else {
      LargeInside(a.page, a.size);
    }
  }

  lemma LargeInside(p: nat, size: nat)
    ensures LargePages(size) > 0 && (p * PAGE + LARGE_HDR) % 16 == 0
    ensures p * PAGE + LARGE_HDR + size <= (p + LargePages(size)) * PAGE
  {
  }

  /** No two live allocations overlap. */
  lemma Disjoint(a: Alloc, b: Alloc, regions: Regions, live: set<nat>, slabs: Slabs, fls: Freelists, larges: Larges)
    requires RegionsAre(regions, slabs, larges) && RegionsOk(regions, live) && IsLive(a, slabs, fls, larges)
    requires IsLive(b, slabs, fls, larges) && a != b
    ensures Addr(a) + Charge(a) <= Addr(b) || Addr(b) + Charge(b) <= Addr(a)
  {
    InRegion(a, regions, slabs, fls, larges);
    InRegion(b, regions, slabs, fls, larges);
    if a.page == b.page {
      assert a.Small? && b.Small? && a.idx != b.idx;
      if a.idx < b.idx { ObjApart(a.page, a.cls, a.idx, b.idx); } else { ObjApart(a.page, a.cls, b.idx, a.idx); }
    }
  }

  // ---- taking and giving back an object ----------------------------------------------------------

  lemma TakeObj(slabs: Slabs, mem: Memory, fls: Freelists, p: nat)
    requires SlabsOk(slabs, mem, fls) && p in slabs && slabs[p].freeCount > 0
    ensures slabs[p].cls < CLASSES && p in fls && fls[p] != []
    ensures slabs[p].freelist == ObjAddr(p, slabs[p].cls, fls[p][0]) && fls[p][0] < Total(slabs[p].cls)
    ensures SlabsOk(slabs[p := Slab(slabs[p].cls, slabs[p].freeCount - 1, Word(mem, slabs[p].freelist))], mem,
                    fls[p := fls[p][1..]])
    ensures fls[p][0] !in fls[p][1..]
  {
    hide ObjAddr, Word;
    assert SlabOk(slabs[p], mem, p, fls[p]);
    PopThread(mem, p, slabs[p].cls, slabs[p].freelist, fls[p]);
    hide Threaded;
  }

  /** `p` is a slab apart from all others. */
  ghost predicate Alone(slabs: Slabs, p: nat) {
    forall q :: q in slabs && q != p ==> p + SLAB_PAGES <= q || q + SLAB_PAGES <= p
  }

  lemma SlabAlone(regions: Regions, live: set<nat>, slabs: Slabs, larges: Larges, p: nat)
    requires RegionsOk(regions, live) && RegionsAre(regions, slabs, larges) && p in slabs
    ensures Alone(slabs, p)
  {
  }

  /** A word of slab `p` is written: the other slabs' lists stay. */
  lemma WriteIn(slabs: Slabs, mem: Memory, fls: Freelists, p: nat, a: nat, v: nat, q: nat)
    requires SlabsOk(slabs, mem, fls) && Alone(slabs, p) && p * PAGE <= a < (p + SLAB_PAGES) * PAGE && q in slabs
    requires q != p
    ensures SlabOk(slabs[q], mem[a := v], q, fls[q])
  {
    hide ObjAddr;
    assert SlabOk(slabs[q], mem, q, fls[q]);
    var c := slabs[q].cls;
    forall k | 0 <= k < |fls[q]| ensures ObjAddr(q, c, fls[q][k]) != a { OtherSlab(p, q, c, fls[q][k], a); }
    ThreadFrame(mem, q, c, slabs[q].freelist, fls[q], a, v);
  }

  lemma GiveObj(slabs: Slabs, mem: Memory, fls: Freelists, p: nat, i: nat)
    requires SlabsOk(slabs, mem, fls) && p in slabs && Alone(slabs, p) && slabs[p].cls < CLASSES
    requires i < Total(slabs[p].cls) && i !in fls[p]
    ensures SlabsOk(slabs[p := Slab(slabs[p].cls, slabs[p].freeCount + 1, ObjAddr(p, slabs[p].cls, i))],
                    mem[ObjAddr(p, slabs[p].cls, i) := slabs[p].freelist], fls[p := [i] + fls[p]])
  {
    var c := slabs[p].cls;
    ObjInside(p, c, i);
    hide ObjAddr;
    assert SlabOk(slabs[p], mem, p, fls[p]);
    PushThread(mem, p, c, slabs[p].freelist, fls[p], i);
    hide Threaded;
    forall q | q in slabs && q != p ensures SlabOk(slabs[q], mem[ObjAddr(p, c, i) := slabs[p].freelist], q, fls[q]) {
      WriteIn(slabs, mem, fls, p, ObjAddr(p, c, i), slabs[p].freelist, q);
    }
  }

  // ---- the partial lists -------------------------------------------------------------------------

  /** A change that leaves who has room as it is. */
  lemma SameRoom(slabs: Slabs, slabs': Slabs, next: Links, prev: Links, partial: seq<int>, pls: seq<seq<nat>>)
    requires ListsOk(slabs, next, prev, partial, pls) && forall p, c :: HasRoom(slabs', p, c) <==> HasRoom(slabs, p, c)
    ensures ListsOk(slabs', next, prev, partial, pls)
  {
    hide Chain, HasRoom;
  }

  lemma OnlyList(slabs: Slabs, next: Links, prev: Links, partial: seq<int>, pls: seq<seq<nat>>, x: nat, c: nat, d: nat)
    requires ListsOk(slabs, next, prev, partial, pls) && c < CLASSES && d < CLASSES && x in pls[c] && c != d
    ensures x !in pls[d]
  {
    hide Chain;
    assert HasRoom(slabs, x, c);
  }

  /** Slab `s` of class `c` got room and was pushed. */
  lemma Pushed(slabs: Slabs, slabs': Slabs, next: Links, prev: Links, partial: seq<int>, pls: seq<seq<nat>>, c: nat,
               s: nat)
    requires ListsOk(slabs, next, prev, partial, pls) && c < CLASSES && (forall d :: 0 <= d < CLASSES ==> s !in pls[d])
    requires forall p, d :: HasRoom(slabs', p, d) <==> HasRoom(slabs, p, d) || (p == s && d == c)
    ensures ListsOk(slabs', next[s := partial[c]], Set(prev[s := -1], partial[c], s), partial[c := s as int],
                    pls[c := [s] + pls[c]])
  {
    hide HasRoom;
    var next', prev' := next[s := partial[c]], Set(prev[s := -1], partial[c], s);
    PushChain(next, prev, partial[c], pls[c], s);
    forall d | 0 <= d < CLASSES && d != c ensures Chain(next', prev', partial[d], pls[d]) {
      HeadOnly(slabs, next, prev, partial, pls, c, d);
      LinksThere(next, prev, partial[d], pls[d]);
      ChainFrame(next, prev, next', prev', partial[d], pls[d]);
    }
    hide Chain;
    assert forall x :: x in [s] + pls[c] <==> x == s || x in pls[c];
  }

  /** The head of one list is in no other. */
  lemma HeadOnly(slabs: Slabs, next: Links, prev: Links, partial: seq<int>, pls: seq<seq<nat>>, c: nat, d: nat)
    requires ListsOk(slabs, next, prev, partial, pls) && c < CLASSES && d < CLASSES && c != d
    ensures partial[c] >= 0 ==> partial[c] !in pls[d]
  {
    hide HasRoom;
    assert Chain(next, prev, partial[c], pls[c]);
    if partial[c] >= 0 {
      assert pls[c] != [] && pls[c][0] in pls[c];
      OnlyList(slabs, next, prev, partial, pls, pls[c][0], c, d);
    }
  }

  lemma LinksThere(next: Links, prev: Links, head: int, pl: seq<nat>)
    requires Chain(next, prev, head, pl)
    ensures forall x :: x in pl ==> x in next && x in prev
  {
    hide After, Before;
  }

  /** The slab at place `k` of its list lost its room, or its life, and was removed. */
  lemma Removed(slabs: Slabs, slabs': Slabs, next: Links, prev: Links, partial: seq<int>, pls: seq<seq<nat>>, c: nat,
                k: nat)
    requires ListsOk(slabs, next, prev, partial, pls) && c < CLASSES && k < |pls[c]| && pls[c][k] in next
    requires pls[c][k] in prev
    requires forall p, d :: HasRoom(slabs', p, d) <==> HasRoom(slabs, p, d) && p != pls[c][k]
    ensures var s := pls[c][k];
            ListsOk(slabs', Set(next, prev[s], next[s])[s := -1], Set(prev, next[s], prev[s])[s := -1],
                    partial[c := if prev[s] >= 0 then partial[c] else next[s]], pls[c := Without(pls[c], k)])
  {
    hide HasRoom, Chain, After, Before, Distinct, Without;
    var s := pls[c][k];
    ChainAt(next, prev, partial[c], pls[c], k);
    RemoveChain(next, prev, partial[c], pls[c], k);
    RemoveDistinct(pls[c], k);
    Members(pls[c], k);
    var next', prev' := Set(next, prev[s], next[s])[s := -1], Set(prev, next[s], prev[s])[s := -1];
    forall d | 0 <= d < CLASSES && d != c ensures Chain(next', prev', partial[d], pls[d]) && s !in pls[d] {
      OnlyList(slabs, next, prev, partial, pls, s, c, d);
      if prev[s] >= 0 { OnlyList(slabs, next, prev, partial, pls, prev[s], c, d); }
      if next[s] >= 0 { OnlyList(slabs, next, prev, partial, pls, next[s], c, d); }
      LinksThere(next, prev, partial[d], pls[d]);
      ChainFrame(next, prev, next', prev', partial[d], pls[d]);
    }
  }

  lemma Members(pl: seq<nat>, k: nat)
    requires k < |pl|
    ensures pl[k] in pl && (Before(pl, k) >= 0 ==> Before(pl, k) in pl) && (After(pl, k) >= 0 ==> After(pl, k) in pl)
  {
  }

  // ---- the live allocations ------------------------------------------------------------------------

  function Drop(allocs: seq<Alloc>, k: nat): (r: seq<Alloc>)
    requires k < |allocs|
    ensures |r| == |allocs| - 1
  {
    allocs[..k] + allocs[k + 1..]
  }

  lemma DropHas(allocs: seq<Alloc>, k: nat)
    requires NoDup(allocs) && k < |allocs|
    ensures NoDup(Drop(allocs, k)) && forall a :: a in Drop(allocs, k) <==> a in allocs && a != allocs[k]
  {
    var r := Drop(allocs, k);
    forall i, j | 0 <= i < j < |r| ensures r[i] != r[j] {
      assert r[i] == (if i < k then allocs[i] else allocs[i + 1]);
      assert r[j] == (if j < k then allocs[j] else allocs[j + 1]);
    }
    forall a | a in allocs && a != allocs[k] ensures a in r {
      var i :| 0 <= i < |allocs| && allocs[i] == a;
      assert a == if i < k then r[i] else r[i - 1];
    }
    forall a | a in r ensures a in allocs && a != allocs[k] {
      var i :| 0 <= i < |r| && r[i] == a;
      assert a == allocs[if i < k then i else i + 1];
    }
  }

  /** One more, or one less, in the sums. */
  lemma AddCounts(allocs: seq<Alloc>, a: Alloc, c: nat)
    ensures InClass(allocs + [a], c) == InClass(allocs, c) + if a.Small? && a.cls == c then 1 else 0
    ensures BigOnes(allocs + [a]) == BigOnes(allocs) + if a.Big? then 1 else 0
    ensures Bytes(allocs + [a]) == Bytes(allocs) + Charge(a)
  {
    assert (allocs + [a])[..|allocs|] == allocs;
  }

  lemma {:induction false} DropCounts(allocs: seq<Alloc>, k: nat, c: nat)
    requires k < |allocs|
    ensures InClass(Drop(allocs, k), c) == InClass(allocs, c) - if allocs[k].Small? && allocs[k].cls == c then 1 else 0
    ensures BigOnes(Drop(allocs, k)) == BigOnes(allocs) - if allocs[k].Big? then 1 else 0
    ensures Bytes(Drop(allocs, k)) == Bytes(allocs) - Charge(allocs[k])
    decreases |allocs|
  {
    var n := |allocs| - 1;
    var init, last := allocs[..n], allocs[n];
    assert allocs == init + [last];
    AddCounts(init, last, c);
    if k == n {
      assert Drop(allocs, k) == init;
    } else {
      DropCounts(init, k, c);
      AddCounts(Drop(init, k), last, c);
      assert Drop(allocs, k) == Drop(init, k) + [last];
    }
  }

  lemma AddCountsOk(allocs: seq<Alloc>, liveObjects: seq<int>, largeAllocs: int, a: Alloc)
    requires CountsOk(allocs, liveObjects, largeAllocs) && (a.Small? ==> a.cls < CLASSES)
    ensures a.Small? ==> CountsOk(allocs + [a], liveObjects[a.cls := liveObjects[a.cls] + 1], largeAllocs)
    ensures a.Big? ==> CountsOk(allocs + [a], liveObjects, largeAllocs + 1)
  {
    hide InClass, BigOnes, Bytes;
    forall c | 0 <= c < CLASSES
      ensures InClass(allocs + [a], c) == liveObjects[c] + if a.Small? && a.cls == c then 1 else 0
    {
      AddCounts(allocs, a, c);
    }
    AddCounts(allocs, a, 0);
  }

  lemma DropCountsOk(allocs: seq<Alloc>, liveObjects: seq<int>, largeAllocs: int, k: nat)
    requires CountsOk(allocs, liveObjects, largeAllocs) && k < |allocs|
    requires (allocs[k].Small? ==> allocs[k].cls < CLASSES)
    ensures allocs[k].Small? ==>
              CountsOk(Drop(allocs, k), liveObjects[allocs[k].cls := liveObjects[allocs[k].cls] - 1], largeAllocs)
    ensures allocs[k].Big? ==> CountsOk(Drop(allocs, k), liveObjects, largeAllocs - 1)
    ensures Bytes(Drop(allocs, k)) == Bytes(allocs) - Charge(allocs[k])
  {
    hide InClass, BigOnes, Bytes, Drop;
    forall c | 0 <= c < CLASSES
      ensures InClass(Drop(allocs, k), c) == liveObjects[c] - if allocs[k].Small? && allocs[k].cls == c then 1 else 0
    {
      DropCounts(allocs, k, c);
    }
    DropCounts(allocs, k, 0);
  }

  /** An object popped off its freelist is a live allocation, and nothing else became one. */
  lemma TookAlloc(allocs: seq<Alloc>, slabs: Slabs, fls: Freelists, larges: Larges, p: nat, s: Slab)
    requires AllocsOk(allocs, slabs, fls, larges) && p in slabs && p in fls && fls[p] != []
    requires s.cls == slabs[p].cls < CLASSES
    requires fls[p][0] < Total(s.cls) && fls[p][0] !in fls[p][1..]
    ensures AllocsOk(allocs + [Small(p, fls[p][0], s.cls)], slabs[p := s], fls[p := fls[p][1..]], larges)
  {
    hide Total;
    var a, slabs', fls' := Small(p, fls[p][0], s.cls), slabs[p := s], fls[p := fls[p][1..]];
    assert a !in allocs by { assert !IsLive(a, slabs, fls, larges); }
    forall x ensures x in allocs + [a] <==> IsLive(x, slabs', fls', larges) {
      assert x in allocs <==> IsLive(x, slabs, fls, larges);
      assert x.Small? && x.page == p ==> (x.idx in fls[p] <==> x.idx == fls[p][0] || x.idx in fls[p][1..]);
    }
  }

  lemma GaveAlloc(allocs: seq<Alloc>, slabs: Slabs, fls: Freelists, larges: Larges, k: nat, s: Slab)
    requires AllocsOk(allocs, slabs, fls, larges) && k < |allocs| && allocs[k].Small? && allocs[k].page in slabs
    requires allocs[k].page in fls
    requires s.cls == slabs[allocs[k].page].cls
    ensures AllocsOk(Drop(allocs, k), slabs[allocs[k].page := s],
                     fls[allocs[k].page := [allocs[k].idx] + fls[allocs[k].page]], larges)
  {
    hide Total, Drop;
    var a := allocs[k];
    var slabs', fls' := slabs[a.page := s], fls[a.page := [a.idx] + fls[a.page]];
    DropHas(allocs, k);
    assert IsLive(a, slabs, fls, larges);
    forall x ensures x in Drop(allocs, k) <==> IsLive(x, slabs', fls', larges) {
      assert x in allocs <==> IsLive(x, slabs, fls, larges);
      assert x.Small? && x.page == a.page ==>
          (x.idx in [a.idx] + fls[a.page] <==> x.idx == a.idx || x.idx in fls[a.page]);
    }
  }

  /** A slab appears or disappears with all its objects free: the live allocations are the same. */
  lemma SlabCame(allocs: seq<Alloc>, slabs: Slabs, fls: Freelists, larges: Larges, p: nat, s: Slab, fl: seq<nat>)
    requires AllocsOk(allocs, slabs, fls, larges) && p !in slabs && s.cls < CLASSES
    requires forall i: nat :: i < Total(s.cls) ==> i in fl
    ensures AllocsOk(allocs, slabs[p := s], fls[p := fl], larges)
  {
    hide Total, NoDup;
    forall x ensures x in allocs <==> IsLive(x, slabs[p := s], fls[p := fl], larges) {
      assert x in allocs <==> IsLive(x, slabs, fls, larges);
    }
  }

  lemma SlabWent(allocs: seq<Alloc>, slabs: Slabs, fls: Freelists, larges: Larges, p: nat)
    requires AllocsOk(allocs, slabs, fls, larges) && p in slabs && p in fls && slabs[p].cls < CLASSES
    requires forall i: nat :: i < Total(slabs[p].cls) ==> i in fls[p]
    ensures AllocsOk(allocs, slabs - {p}, fls - {p}, larges)
  {
    hide Total, NoDup;
    forall x ensures x in allocs <==> IsLive(x, slabs - {p}, fls - {p}, larges) {
      assert x in allocs <==> IsLive(x, slabs, fls, larges);
    }
  }

  lemma BigCame(allocs: seq<Alloc>, slabs: Slabs, fls: Freelists, larges: Larges, p: nat, l: Large)
    requires AllocsOk(allocs, slabs, fls, larges) && p !in larges
    ensures AllocsOk(allocs + [Big(p, l.size)], slabs, fls, larges[p := l])
  {
    hide Total;
    var a := Big(p, l.size);
    assert a !in allocs by { assert !IsLive(a, slabs, fls, larges); }
    forall x ensures x in allocs + [a] <==> IsLive(x, slabs, fls, larges[p := l]) {
      assert x in allocs <==> IsLive(x, slabs, fls, larges);
    }
  }

  lemma BigWent(allocs: seq<Alloc>, slabs: Slabs, fls: Freelists, larges: Larges, k: nat)
    requires AllocsOk(allocs, slabs, fls, larges) && k < |allocs| && allocs[k].Big?
    ensures AllocsOk(Drop(allocs, k), slabs, fls, larges - {allocs[k].page})
  {
    hide Total, Drop;
    DropHas(allocs, k);
    var a := allocs[k];
    assert IsLive(a, slabs, fls, larges);
    forall x ensures x in Drop(allocs, k) <==> IsLive(x, slabs, fls, larges - {a.page}) {
      assert x in allocs <==> IsLive(x, slabs, fls, larges);
    }
  }

  /** With as many distinct entries as there are objects, the freelist has them all. */
  lemma {:induction false} FullList(fl: seq<nat>, n: nat, i: nat)
    requires Distinct(fl) && |fl| == n && (forall k :: 0 <= k < |fl| ==> fl[k] < n) && i < n
    ensures i in fl
  {
    hide Elems, HeapPages.PagesOf;
    ElemsHas(fl);
    ElemsSize(fl);
    HeapPages.PagesHas(0, n);
    HeapPages.PagesSize(0, n);
    WholeSet(Elems(fl), HeapPages.PagesOf(0, n));
  }

  lemma WholeSet(a: set<nat>, b: set<nat>)
    requires a <= b && |a| == |b|
    ensures a == b
  {
    assert b == a + (b - a);
  }

  ghost function Elems(fl: seq<nat>): set<nat> { if fl == [] then {} else Elems(fl[..|fl| - 1]) + {fl[|fl| - 1]} }

  lemma {:induction false} ElemsHas(fl: seq<nat>)
    ensures forall x :: x in Elems(fl) <==> x in fl
  {
    if fl != [] {
      ElemsHas(fl[..|fl| - 1]);
      assert fl == fl[..|fl| - 1] + [fl[|fl| - 1]];
    }
  }

  lemma {:induction false} ElemsSize(fl: seq<nat>)
    requires Distinct(fl)
    ensures |Elems(fl)| == |fl|
  {
    if fl != [] {
      ElemsSize(fl[..|fl| - 1]);
      ElemsHas(fl[..|fl| - 1]);
      NotBefore(fl);
    }
  }

  lemma NotBefore(fl: seq<nat>)
    requires Distinct(fl) && fl != []
    ensures fl[|fl| - 1] !in fl[..|fl| - 1]
  {
  }

  // ---- regions and tags ----------------------------------------------------------------------------

  lemma RegionCame(regions: Regions, live: set<nat>, p: nat, n: nat)
    requires RegionsOk(regions, live) && n > 0 && HeapPages.PagesOf(p, n) !! live
    ensures p !in regions
    ensures RegionsOk(regions[p := n], live + HeapPages.PagesOf(p, n))
    ensures forall q :: q in regions ==> p + n <= q || q + regions[q] <= p
  {
    hide HeapPages.PagesOf, Covered;
    forall q | q in regions ensures p + n <= q || q + regions[q] <= p { PagesApart(q, regions[q], p, n, live); }
    forall x | x in live + HeapPages.PagesOf(p, n) ensures Covered(regions[p := n], x) {
      CoverCame(regions, live, p, n, x);
    }
  }

  lemma CoverCame(regions: Regions, live: set<nat>, p: nat, n: nat, x: nat)
    requires x in live + HeapPages.PagesOf(p, n) && p !in regions && (x in live ==> Covered(regions, x))
    ensures Covered(regions[p := n], x)
  {
    HeapPages.PagesHas(p, n);
    hide HeapPages.PagesOf;
    var r := regions[p := n];
    if x in live {
      var q :| q in regions && q <= x < q + regions[q];
      assert q in r && q <= x < q + r[q];
    } else {
      assert p in r && p <= x < p + r[p];
    }
  }

  lemma CoverWent(regions: Regions, p: nat, x: nat)
    requires p in regions && x !in HeapPages.PagesOf(p, regions[p]) && Covered(regions, x)
    ensures Covered(regions - {p}, x)
  {
    HeapPages.PagesHas(p, regions[p]);
    hide HeapPages.PagesOf;
    var q :| q in regions && q <= x < q + regions[q];
    assert q in regions - {p};
  }

  lemma PagesApart(q: nat, m: nat, p: nat, n: nat, live: set<nat>)
    requires m > 0 && n > 0 && HeapPages.PagesOf(q, m) <= live && HeapPages.PagesOf(p, n) !! live
    ensures p + n <= q || q + m <= p
  {
    HeapPages.PagesHas(q, m);
    HeapPages.PagesHas(p, n);
    hide HeapPages.PagesOf;
    var x := if p < q then q else p;
    assert p + n > q && q + m > p ==> x in HeapPages.PagesOf(q, m) && x in HeapPages.PagesOf(p, n);
  }

  lemma RegionWent(regions: Regions, live: set<nat>, p: nat)
    requires RegionsOk(regions, live) && p in regions
    ensures RegionsOk(regions - {p}, live - HeapPages.PagesOf(p, regions[p]))
  {
    hide HeapPages.PagesOf, Covered;
    forall q | q in regions && q != p
      ensures HeapPages.PagesOf(q, regions[q]) <= live - HeapPages.PagesOf(p, regions[p])
    {
      ApartPages(q, regions[q], p, regions[p]);
    }
    forall x | x in live - HeapPages.PagesOf(p, regions[p]) ensures Covered(regions - {p}, x) {
      CoverWent(regions, p, x);
    }
  }

  lemma ApartPages(q: nat, m: nat, p: nat, n: nat)
    requires p + n <= q || q + m <= p
    ensures HeapPages.PagesOf(q, m) !! HeapPages.PagesOf(p, n)
  {
    HeapPages.PagesHas(q, m);
    HeapPages.PagesHas(p, n);
    hide HeapPages.PagesOf;
  }

  /** The owner entries of [p, p + n) changed: everything elsewhere keeps its tags. */
  lemma TagsFrame(owner: seq<nat>, owner': seq<nat>, slabs: Slabs, larges: Larges, p: nat, n: nat)
    requires TagsOk(owner, slabs, larges) && |owner'| == |owner|
    requires forall x :: 0 <= x < |owner| && !(p <= x < p + n) ==> owner'[x] == owner[x]
    requires Apart(slabs, larges, p, n)
    ensures TagsOk(owner', slabs, larges)
  {
  }

  lemma TagsLess(owner: seq<nat>, slabs: Slabs, larges: Larges, p: nat)
    requires TagsOk(owner, slabs, larges)
    ensures TagsOk(owner, slabs - {p}, larges - {p})
  {
  }

  lemma MarkedElsewhere(o: seq<nat>, p: nat, n: nat)
    requires p + n <= |o|
    ensures forall x :: 0 <= x < |o| && !(p <= x < p + n) ==>
              HeapPages.Marked(o, p, n)[x] == o[x] && HeapPages.Cleared(o, p, n)[x] == o[x]
    ensures forall x :: p <= x < p + n ==> HeapPages.Marked(o, p, n)[x] == LARGE_TAG
  {
    forall x | 0 <= x < |o| && !(p <= x < p + n)
      ensures HeapPages.Marked(o, p, n)[x] == o[x] && HeapPages.Cleared(o, p, n)[x] == o[x]
    {
      HeapPages.MarkedAt(o, p, n, x);
      HeapPages.ClearedAt(o, p, n, x);
    }
    forall x | p <= x < p + n ensures HeapPages.Marked(o, p, n)[x] == LARGE_TAG { HeapPages.MarkedAt(o, p, n, x); }
  }

  /** A used page's owner entry may be anything but 0. */
  lemma RetagOk(o: seq<nat>, mapped: nat, live: set<nat>, x: nat, v: nat)
    requires HeapPages.OwnerOk(o, mapped, live, 0, 0) && x < |o| && o[x] != 0 && v != 0
    ensures HeapPages.OwnerOk(o[x := v], mapped, live, 0, 0)
  {
    hide HeapPages.PagesOf;
  }

  // ---- spare slabs -----------------------------------------------------------------------------------

  /** All the slab's objects are free. */
  predicate Whole(slabs: Slabs, p: nat) {
    p in slabs && slabs[p].cls < CLASSES && slabs[p].freeCount == Total(slabs[p].cls)
  }

  /** No class keeps two wholly free slabs. */
  ghost predicate OneSpare(slabs: Slabs) {
    forall p, q :: Whole(slabs, p) && Whole(slabs, q) && slabs[p].cls == slabs[q].cls ==> p == q
  }

  /** Other slabs than `p` are as before. */
  ghost predicate SameBut(slabs: Slabs, t: Slabs, p: nat) {
    forall q :: q in t && q != p ==> q in slabs && t[q] == slabs[q]
  }

  lemma SameButOne(slabs: Slabs, p: nat, s: Slab)
    ensures SameBut(slabs, slabs[p := s], p)
  {
  }

  lemma SameButGone(slabs: Slabs, t: Slabs, p: nat)
    requires SameBut(slabs, t, p)
    ensures SameBut(slabs, t - {p}, p)
  {
  }

  lemma SpareCame(slabs: Slabs, next: Links, prev: Links, partial: seq<int>, pls: seq<seq<nat>>, p: nat, c: nat, h: nat)
    requires ListsOk(slabs, next, prev, partial, pls) && c < CLASSES && |partial| == CLASSES && partial[c] < 0
    requires OneSpare(slabs)
    ensures OneSpare(slabs[p := Slab(c, Total(c), h)])
  {
    hide Total;
    assert Chain(next, prev, partial[c], pls[c]) && pls[c] == [];
    var t := slabs[p := Slab(c, Total(c), h)];
    forall q | q != p && Whole(t, q) ensures t[q].cls != c && Whole(slabs, q) { assert HasRoom(slabs, q, t[q].cls); }
  }

  /** A slab that is not wholly free, or not there any more, takes no part. */
  lemma SpareKept(slabs: Slabs, t: Slabs, p: nat)
    requires OneSpare(slabs) && !Whole(t, p) && SameBut(slabs, t, p)
    ensures OneSpare(t)
  {
    hide Total;
    forall q | Whole(t, q) ensures Whole(slabs, q) && t[q] == slabs[q] {}
  }

  /** A wholly free slab that is alone on its list is its class's only one. */
  lemma SpareAlone(slabs: Slabs, t: Slabs, next: Links, prev: Links, partial: seq<int>, pls: seq<seq<nat>>,
                   p: nat, idx: nat)
    requires OneSpare(slabs) && SameBut(slabs, t, p)
    requires ListsOk(t, next, prev, partial, pls) && p in t && t[p].cls < CLASSES && |pls| == CLASSES
    requires idx < |pls[t[p].cls]|
    requires pls[t[p].cls][idx] == p && p in next && p in prev && next[p] < 0 && prev[p] < 0
    ensures OneSpare(t)
  {
    hide Total;
    var c := t[p].cls;
    assert Chain(next, prev, partial[c], pls[c]);
    assert |pls[c]| == 1;
    forall q | q != p && Whole(t, q) ensures t[q].cls != c && Whole(slabs, q) && t[q] == slabs[q] {
      assert HasRoom(t, q, t[q].cls);
    }
  }

  lemma SpareTaken(h: Heap, p: nat)
    requires DataOk(h) && OneSpare(h.slabs)
    requires p in h.slabs && h.slabs[p].freeCount > 0
    ensures OneSpare(h.slabs[p := Slab(h.slabs[p].cls, h.slabs[p].freeCount - 1, Word(h.mem, h.slabs[p].freelist))])
  {
    hide SlabsOk, AllocsOk, CountsOk, RegionsAre, TagsOk, Total, OneSpare, Word;
    FreeBound(h.slabs, h.mem, h.fls, p);
    var s := Slab(h.slabs[p].cls, h.slabs[p].freeCount - 1, Word(h.mem, h.slabs[p].freelist));
    SpareKept(h.slabs, h.slabs[p := s], p);
  }

  lemma FreeBound(slabs: Slabs, mem: Memory, fls: Freelists, p: nat)
    requires SlabsOk(slabs, mem, fls) && p in slabs
    ensures slabs[p].cls < CLASSES && slabs[p].freeCount <= Total(slabs[p].cls)
  {
    hide Total, ObjAddr, Elems, HeapPages.PagesOf;
    var fl, n := fls[p], Total(slabs[p].cls);
    assert SlabOk(slabs[p], mem, p, fl);
    ElemsHas(fl);
    ElemsSize(fl);
    HeapPages.PagesHas(0, n);
    HeapPages.PagesSize(0, n);
    Smaller(Elems(fl), HeapPages.PagesOf(0, n));
  }

  lemma Smaller(a: set<nat>, b: set<nat>)
    requires a <= b
    ensures |a| <= |b|
  {
    assert b == a + (b - a);
  }

  /** With nothing allocated every slab is wholly free. */
  lemma AllWhole(slabs: Slabs, mem: Memory, fls: Freelists, larges: Larges, p: nat)
    requires SlabsOk(slabs, mem, fls) && AllocsOk([], slabs, fls, larges) && p in slabs
    ensures Whole(slabs, p)
  {
    hide Total, ObjAddr, Elems, HeapPages.PagesOf;
    FreeBound(slabs, mem, fls, p);
    var fl, c := fls[p], slabs[p].cls;
    assert SlabOk(slabs[p], mem, p, fl);
    forall i: nat | i < Total(c) ensures i in fl { assert !IsLive(Small(p, i, c), slabs, fls, larges); }
    ElemsHas(fl);
    ElemsSize(fl);
    HeapPages.PagesHas(0, Total(c));
    HeapPages.PagesSize(0, Total(c));
    Smaller(HeapPages.PagesOf(0, Total(c)), Elems(fl));
  }

  /** The pages of the wholly free slabs of the first `n` classes. */
  ghost function SparePages(slabs: Slabs, n: nat): set<nat>
    requires n <= CLASSES
  {
    if n == 0 then {} else SparePages(slabs, n - 1) + SpareOf(slabs, n - 1)
  }

  ghost function SpareOf(slabs: Slabs, c: nat): set<nat> {
    if p :| Whole(slabs, p) && slabs[p].cls == c then HeapPages.PagesOf(p, SLAB_PAGES) else {}
  }

  lemma {:induction false} SpareSize(slabs: Slabs, n: nat)
    requires n <= CLASSES
    ensures |SparePages(slabs, n)| <= n * SLAB_PAGES
  {
    hide HeapPages.PagesOf, Whole;
    if n > 0 {
      SpareSize(slabs, n - 1);
      forall p: nat ensures |HeapPages.PagesOf(p, SLAB_PAGES)| == SLAB_PAGES { HeapPages.PagesSize(p, SLAB_PAGES); }
    }
  }

  lemma {:induction false} SpareHas(slabs: Slabs, n: nat, p: nat)
    requires OneSpare(slabs) && p in slabs && Whole(slabs, p) && slabs[p].cls < n <= CLASSES
    ensures HeapPages.PagesOf(p, SLAB_PAGES) <= SparePages(slabs, n)
  {
    hide HeapPages.PagesOf, Whole;
    if slabs[p].cls < n - 1 { SpareHas(slabs, n - 1, p); }
  }

  /** With nothing allocated the heap holds at most one slab per size class, and no other page. */
  lemma QuietHeap(h: Heap, live: set<nat>)
    requires DataOk(h) && h.allocs == [] && RegionsOk(h.regions, live) && OneSpare(h.slabs)
    ensures h.larges == map[] && |live| <= CLASSES * SLAB_PAGES
  {
    hide CountsOk, TagsOk, OneSpare, Total, HeapPages.PagesOf, SparePages, SlabsOk, Whole;
    forall p: nat ensures p !in h.larges { NoLarge(h.slabs, h.fls, h.larges, p); }
    forall x | x in live ensures x in SparePages(h.slabs, CLASSES) {
      assert Covered(h.regions, x);
      var p :| p in h.regions && p <= x < p + h.regions[p];
      HeapPages.PagesHas(p, SLAB_PAGES);
      AllWhole(h.slabs, h.mem, h.fls, h.larges, p);
      assert h.slabs[p].cls < CLASSES by { WholeClass(h.slabs, p); }
      SpareHas(h.slabs, CLASSES, p);
    }
    SpareSize(h.slabs, CLASSES);
    Smaller(live, SparePages(h.slabs, CLASSES));
  }

  lemma RegionInside(slabs: Slabs, larges: Larges, regions: Regions, o: seq<nat>, p: nat)
    requires RegionsAre(regions, slabs, larges) && TagsOk(o, slabs, larges) && p in regions
    ensures p + regions[p] <= |o|
  {
    if p in slabs {
      assert TaggedAs(o, p, SLAB_PAGES, Tag(p));
    } else {
      assert TaggedAs(o, p, larges[p].pages, LARGE_TAG);
    }
  }

  lemma LiveOnes(allocs: seq<Alloc>, slabs: Slabs, fls: Freelists, larges: Larges, i: nat)
    requires AllocsOk(allocs, slabs, fls, larges) && i < |allocs|
    ensures IsLive(allocs[i], slabs, fls, larges) && forall j :: 0 <= j < |allocs| && j != i ==> allocs[j] != allocs[i]
  {
    assert allocs[i] in allocs;
  }

  lemma NoLarge(slabs: Slabs, fls: Freelists, larges: Larges, p: nat)
    requires AllocsOk([], slabs, fls, larges)
    ensures p !in larges
  {
    if p in larges {
      assert IsLive(Big(p, larges[p].size), slabs, fls, larges);
    }
  }

  lemma WholeClass(slabs: Slabs, p: nat)
    requires Whole(slabs, p)
    ensures p in slabs && slabs[p].cls < CLASSES
  {
  }

  class Kheap {
    const pages: HeapPages.PageHeap
    var slabs: Slabs
    var next: Links
    var prev: Links
    var partial: seq<int>
    var liveObjects: seq<int>
    var larges: Larges
    /** The words of memory that hold freelist links. */
    var mem: Memory
    var largeAllocs: int
    var bytesRequested: int
    ghost var fls: Freelists
    ghost var pls: seq<seq<nat>>
    ghost var regions: Regions
    ghost var allocs: seq<Alloc>

    ghost function Now(): Heap
      reads this, pages, pages.owner
    {
      Heap(slabs, mem, fls, larges, regions, pages.owner[..], allocs, liveObjects, largeAllocs)
    }

    /** Everything but that the bytes charged add up and that no class keeps two spare slabs. */
    ghost predicate Shape()
      reads this, pages, pages.runs, pages.owner
    {
      && DataOk(Now())
      && ListsOk(slabs, next, prev, partial, pls) && pages.Valid() && RegionsOk(regions, pages.live)
    }

    ghost predicate Valid()
      reads this, pages, pages.runs, pages.owner
    {
      Shape() && OneSpare(slabs) && bytesRequested == Bytes(allocs)
    }

    constructor (limit: nat)
      ensures Valid() && allocs == [] && fresh(pages) && fresh(pages.runs) && fresh(pages.owner)
      ensures pages.limit == limit && pages.bump == 0
    {
      hide HeapPages.PageHeap.Valid, HeapPages.PagesOf, Total, ClassSize, ObjAddr, Threaded;
      var h := new HeapPages.PageHeap(limit);
      pages := h;
      slabs, next, prev, larges, mem, fls, regions := map[], map[], map[], map[], map[], map[], map[];
      partial := seq(CLASSES, _ => -1);
      liveObjects := seq(CLASSES, _ => 0);
      largeAllocs, bytesRequested := 0, 0;
      pls := seq(CLASSES, _ => []);
      allocs := [];
    }

    // ---- the partial lists ---------------------------------------------------------------------------

    method PartialPush(c: nat, s: nat)
      requires c < CLASSES && |partial| == |pls| == CLASSES
      modifies this`next, this`prev, this`partial, this`pls
      ensures next == old(next)[s := old(partial)[c]] && prev == Set(old(prev)[s := -1], old(partial)[c], s)
      ensures partial == old(partial)[c := s as int] && pls == old(pls)[c := [s] + old(pls)[c]]
    {
      prev := prev[s := -1];
      next := next[s := partial[c]];
      if partial[c] >= 0 {
        prev := prev[partial[c] := s];
      }
      partial := partial[c := s];
      pls := pls[c := [s] + pls[c]];
    }

    method PartialRemove(c: nat, s: nat, ghost k: nat)
      requires c < CLASSES && |partial| == |pls| == CLASSES && k < |pls[c]| && s in next && s in prev
      modifies this`next, this`prev, this`partial, this`pls
      ensures next == Set(old(next), old(prev)[s], old(next)[s])[s := -1]
      ensures prev == Set(old(prev), old(next)[s], old(prev)[s])[s := -1]
      ensures partial == old(partial)[c := if old(prev)[s] >= 0 then old(partial)[c] else old(next)[s]]
      ensures pls == old(pls)[c := Without(old(pls)[c], k)]
    {
      var n, p := next[s], prev[s];
      if p >= 0 {
        next := next[p := n];
      } else {
        partial := partial[c := n];
      }
      if n >= 0 {
        prev := prev[n := p];
      }
      next := next[s := -1];
      prev := prev[s := -1];
      pls := pls[c := Without(pls[c], k)];
    }

    // ---- slabs -----------------------------------------------------------------------------------------

    /** Thread every object of a new slab onto its freelist, in address order. */
    method ThreadAll(p: nat, c: nat)
      requires DataOk(Now())
      requires Alone(slabs, p) && p !in slabs && c < CLASSES
      modifies this`mem
      ensures DataOk(Now())
      ensures Threaded(mem, p, c, ObjAddr(p, c, 0), From(0, Total(c)))
    {
      hide SlabsOk, ObjAddr, From, AllocsOk, CountsOk, RegionsAre, TagsOk;
      for i := 0 to Total(c)
        invariant SlabsOk(slabs, mem, fls)
        invariant forall k: nat :: k < i ==> Word(mem, ObjAddr(p, c, k)) == NextObj(p, c, k)
      {
        WriteOutside(slabs, mem, fls, p, c, i, NextObj(p, c, i));
        forall k: nat | k < i ensures ObjAddr(p, c, k) != ObjAddr(p, c, i) { ObjInjective(p, c, k, i); }
        mem := mem[ObjAddr(p, c, i) := if i + 1 < Total(c) then ObjAddr(p, c, i + 1) else 0];
      }
      AllThreaded(mem, p, c);
    }

    /** The owner entries of a new slab's pages point to it. */
    method TagPages(p: nat)
      requires pages.Valid() && p + SLAB_PAGES <= pages.limit && TaggedAs(pages.owner[..], p, SLAB_PAGES, LARGE_TAG)
      modifies pages.owner
      ensures pages.Valid() && |pages.owner[..]| == old(|pages.owner[..]|)
      ensures TaggedAs(pages.owner[..], p, SLAB_PAGES, Tag(p))
      ensures forall x :: 0 <= x < pages.owner.Length && !(p <= x < p + SLAB_PAGES) ==>
                pages.owner[..][x] == old(pages.owner[..])[x]
    {
      hide HeapPages.OwnerOk, HeapPages.Split, HeapPages.NoneAtTop;
      for i := 0 to SLAB_PAGES
        invariant pages.Valid()
        invariant forall x :: 0 <= x < pages.owner.Length ==>
                    pages.owner[x] == if p <= x < p + i then Tag(p) else old(pages.owner[x])
      {
        RetagOk(pages.owner[..], pages.pagesMapped, pages.live, p + i, Tag(p));
        ghost var o := pages.owner[..];
        pages.owner[p + i] := Tag(p);
        assert pages.owner[..] == o[p + i := Tag(p)];
      }
    }

    /** New pages [p, p + n), belonging to nothing yet and tagged `v`. */
    ghost predicate Got(p: nat, n: nat, v: nat)
      reads this, pages, pages.runs, pages.owner
    {
      && DataOk(Now())
      && ListsOk(slabs, next, prev, partial, pls) && pages.Valid() && RegionsOk(regions[p := n], pages.live)
      && TaggedAs(pages.owner[..], p, n, v) && p !in slabs && p !in larges
      && p + n <= pages.limit && Apart(slabs, larges, p, n)
    }

    method GetPages(n: nat, mappable: nat) returns (p: int)
      requires Shape() && n > 0
      modifies pages, pages.runs, pages.owner
      ensures p < 0 ==> Shape()
      ensures p >= 0 ==> Got(p, n, LARGE_TAG)
      ensures p < 0 <==> mappable < n || old(pages.NoRunFits(n) && pages.bump + n > pages.limit)
    {
      hide DataOk, ListsOk, RegionsOk, HeapPages.PagesOf, HeapPages.Marked, TaggedAs, Apart, HeapPages.PageHeap.Valid;
      OwnerSize();
      p := pages.Alloc(n, mappable);
      if p < 0 { return; }
      NewPages(Now().(owner := old(pages.owner[..])), old(pages.live), p, n);
    }

    lemma OwnerSize()
      requires pages.Valid()
      ensures pages.owner.Length == pages.limit && pages.nruns <= pages.runs.Length
    {
    }

    method GetSlabPages(mappable: nat) returns (p: int)
      requires Shape()
      modifies pages, pages.runs, pages.owner
      ensures p < 0 ==> Shape()
      ensures p >= 0 ==> Got(p, SLAB_PAGES, Tag(p))
      ensures p < 0
              <==> mappable < SLAB_PAGES || old(pages.NoRunFits(SLAB_PAGES) && pages.bump + SLAB_PAGES > pages.limit)
    {
      hide DataOk, ListsOk, RegionsOk, HeapPages.PagesOf, TaggedAs, HeapPages.PageHeap.Valid, Apart;
      p := GetPages(SLAB_PAGES, mappable);
      if p < 0 { return; }
      ghost var o := pages.owner[..];
      TagPages(p);
      Retagged(Now().(owner := o), pages.owner[..], p);
    }

    /** A new slab with all its objects free, first on its class's list; -1 if no pages can be had. */
    method SlabCreate(c: nat, mappable: nat) returns (s: int)
      requires Shape() && c < CLASSES && partial[c] < 0 && OneSpare(slabs)
      modifies this`slabs, this`fls, this`mem, this`regions, this`next, this`prev, this`partial, this`pls, pages,
               pages.runs, pages.owner
      ensures Shape() && |partial| == CLASSES && (s >= 0 ==> partial[c] == s) && OneSpare(slabs)
      ensures s < 0 ==> slabs == old(slabs)
      ensures s < 0
              <==> mappable < SLAB_PAGES || old(pages.NoRunFits(SLAB_PAGES) && pages.bump + SLAB_PAGES > pages.limit)
    {
      hide DataOk, ListsOk, RegionsOk, TaggedAs, Apart, HeapPages.PagesOf, ObjAddr, Total, From, Threaded,
           HeapPages.PageHeap.Valid, Alone, OneSpare;
      ListSizes(slabs, next, prev, partial, pls);
      s := GetSlabPages(mappable);
      if s < 0 { return; }
      AloneOf(slabs, larges, s);
      ThreadAll(s, c);
      SpareCame(slabs, next, prev, partial, pls, s, c, ObjAddr(s, c, 0));
      FreshLists(slabs, next, prev, partial, pls, s, c);
      FreshSlab(Now(), s, c);
      AddSlab(s, c);
    }

    method AddSlab(s: nat, c: nat)
      requires c < CLASSES && |partial| == |pls| == CLASSES
      modifies this`slabs, this`fls, this`regions, this`next, this`prev, this`partial, this`pls
      ensures slabs == old(slabs)[s := Slab(c, Total(c), ObjAddr(s, c, 0))] && fls == old(fls)[s := From(0, Total(c))]
      ensures regions == old(regions)[s := SLAB_PAGES]
      ensures next == old(next)[s := old(partial)[c]] && prev == Set(old(prev)[s := -1], old(partial)[c], s)
      ensures partial == old(partial)[c := s as int] && pls == old(pls)[c := [s] + old(pls)[c]]
    {
      slabs := slabs[s := Slab(c, Total(c), ObjAddr(s, c, 0))];
      fls := fls[s := From(0, Total(c))];
      regions := regions[s := SLAB_PAGES];
      PartialPush(c, s);
    }

    /** An object of class `c`: the first of the first slab with room, or of a new one; 0 if none. */
    method SlabAlloc(c: nat, mappable: nat) returns (addr: nat, ghost a: Alloc)
      requires Shape() && c < CLASSES && OneSpare(slabs)
      modifies this`slabs, this`fls, this`mem, this`regions, this`next, this`prev, this`partial, this`pls,
               this`liveObjects, this`allocs,
               pages, pages.runs, pages.owner
      ensures Shape() && OneSpare(slabs) && (addr == 0 ==> allocs == old(allocs))
      ensures addr > 0 ==> allocs == old(allocs) + [a] && Placed(a, c, addr)
      ensures addr == 0
              <==> old(partial[c] < 0 && NoPages(SLAB_PAGES, mappable))
    {
      hide DataOk, ListsOk, RegionsOk, HeapPages.PagesOf, ObjAddr, Total, HeapPages.PageHeap.Valid, OneSpare;
      ListSizes(slabs, next, prev, partial, pls);
      var s := partial[c];
      if s < 0 {
        s := SlabCreate(c, mappable);
        if s < 0 { return 0, Big(0, 0); }
      }
      addr, a := PopObject(c, s);
    }

    /** The head of a list has one free object less; without any it leaves the list. */
    method TakeFromHead(c: nat, s: nat, after: Slab)
      requires ListsOk(slabs, next, prev, partial, pls) && c < CLASSES && |partial| == CLASSES && partial[c] == s
      requires HasRoom(slabs, s, c) && after.cls == c
      modifies this`slabs, this`next, this`prev, this`partial, this`pls
      ensures ListsOk(slabs, next, prev, partial, pls) && slabs == old(slabs)[s := after]
    {
      hide ListsOk, Set, Without;
      HeadHasRoom(slabs, next, prev, partial, pls, c);
      if after.freeCount == 0 {
        Emptied(slabs, next, prev, partial, pls, c, s, after);
        PartialRemove(c, s, 0);
      } else {
        StillRoom(slabs, next, prev, partial, pls, s, after);
      }
      slabs := slabs[s := after];
    }

    /** Take the first free object of the slab at the head of its list. */
    method PopObject(c: nat, s: nat) returns (addr: nat, ghost a: Alloc)
      requires Shape() && c < CLASSES && |partial| == CLASSES && partial[c] == s && OneSpare(slabs)
      modifies this`slabs, this`fls, this`next, this`prev, this`partial, this`pls, this`liveObjects, this`allocs
      ensures Shape() && OneSpare(slabs) && addr > 0 && allocs == old(allocs) + [a] && Placed(a, c, addr)
    {
      hide DataOk, ListsOk, RegionsOk, HeapPages.PagesOf, ObjAddr, Total, HeapPages.PageHeap.Valid, Word, Placed, Set,
           Without, OneSpare;
      HeadHasRoom(slabs, next, prev, partial, pls, c);
      SpareTaken(Now(), s);
      PopStep(Now(), s);
      addr := slabs[s].freelist;
      TakeFromHead(c, s, Slab(c, slabs[s].freeCount - 1, Word(mem, addr)));
      liveObjects := liveObjects[c := liveObjects[c] + 1];
      a := Small(s, fls[s][0], c);
      allocs := allocs + [a];
      fls := fls[s := fls[s][1..]];
    }

    /** An object goes on its slab's freelist; a slab that had none joins its list. */
    method PushObject(p: nat, i: nat, c: nat)
      requires ListsOk(slabs, next, prev, partial, pls) && p in slabs && slabs[p].cls == c < CLASSES
      requires |liveObjects| == CLASSES
      modifies this`slabs, this`mem, this`next, this`prev, this`partial, this`pls, this`liveObjects
      ensures ListsOk(slabs, next, prev, partial, pls)
      ensures slabs == old(slabs)[p := Slab(c, old(slabs[p].freeCount) + 1, ObjAddr(p, c, i))]
      ensures mem == old(mem)[ObjAddr(p, c, i) := old(slabs[p].freelist)]
      ensures liveObjects == old(liveObjects)[c := old(liveObjects[c]) - 1]
    {
      hide ListsOk, ObjAddr;
      var addr := ObjAddr(p, c, i);
      mem := mem[addr := slabs[p].freelist];
      GiveToList(c, p, Slab(c, slabs[p].freeCount + 1, addr));
      liveObjects := liveObjects[c := liveObjects[c] - 1];
    }

    /** Give object `i` back. If it was live, allocation `k`, it is not any more; if it was free already,
        its freelist is broken. */
    method GiveBack(p: nat, i: nat, c: nat, ghost k: nat)
      requires Shape() && p in slabs && p in fls && slabs[p].cls == c < CLASSES
      requires i !in fls[p] ==> k < |allocs| && allocs[k] == Small(p, i, c)
      modifies this`slabs, this`fls, this`mem, this`next, this`prev, this`partial, this`pls, this`liveObjects,
               this`allocs
      ensures ListsOk(slabs, next, prev, partial, pls) && p in slabs && SameBut(old(slabs), slabs, p)
      ensures slabs[p].cls == c && slabs[p].freeCount == old(slabs[p].freeCount) + 1
      ensures i !in old(fls)[p] ==> Shape() && allocs == Drop(old(allocs), k)
      ensures i in old(fls)[p] ==> allocs == old(allocs) && Broken(slabs, mem, p)
    {
      hide DataOk, ListsOk, RegionsOk, HeapPages.PagesOf, ObjAddr, Total, Drop, HeapPages.PageHeap.Valid, SameBut,
           Broken;
      ghost var free := i in fls[p];
      SameButOne(slabs, p, Slab(c, slabs[p].freeCount + 1, ObjAddr(p, c, i)));
      LiveCounts(Now());
      if free {
        FreedTwice(Now(), p, i);
      } else {
        PushStep(Now(), pages.live, k, p, i, c);
      }
      PushObject(p, i, c);
      if !free {
        fls := fls[p := [i] + fls[p]];
        allocs := Drop(allocs, k);
      }
    }

    method GiveToList(c: nat, p: nat, after: Slab)
      requires ListsOk(slabs, next, prev, partial, pls) && c < CLASSES && p in slabs && slabs[p].cls == after.cls == c
      requires after.freeCount == slabs[p].freeCount + 1
      modifies this`slabs, this`next, this`prev, this`partial, this`pls
      ensures ListsOk(slabs, next, prev, partial, pls) && slabs == old(slabs)[p := after]
    {
      hide ListsOk, Set;
      ListSizes(slabs, next, prev, partial, pls);
      if slabs[p].freeCount == 0 {
        Filled(slabs, next, prev, partial, pls, c, p, after);
        PartialPush(c, p);
      } else {
        StillRoom(slabs, next, prev, partial, pls, p, after);
      }
      slabs := slabs[p := after];
    }

    /** Unlink a slab and give its pages back. */
    method SlabDestroy(p: nat)
      requires ListsOk(slabs, next, prev, partial, pls) && p in slabs && slabs[p].cls < CLASSES
      requires slabs[p].freeCount > 0
      requires pages.Valid() && HeapPages.PagesOf(p, SLAB_PAGES) <= pages.live && p + SLAB_PAGES <= pages.limit
      modifies this`slabs, this`next, this`prev, this`partial, this`pls, pages, pages.runs, pages.owner
      ensures ListsOk(slabs, next, prev, partial, pls) && slabs == old(slabs) - {p} && pages.Valid()
      ensures pages.live == old(pages.live) - HeapPages.PagesOf(p, SLAB_PAGES)
      ensures p + SLAB_PAGES <= |old(pages.owner[..])|
      ensures pages.owner[..] == HeapPages.Cleared(old(pages.owner[..]), p, SLAB_PAGES)
    {
      hide ListsOk, HeapPages.PagesOf, HeapPages.PageHeap.Valid, Set, Without, HeapPages.Cleared;
      ghost var idx := PlaceInList(slabs, next, prev, partial, pls, p);
      UnlistSlab(slabs[p].cls, p, idx);
      OwnerSize();
      slabs := slabs - {p};
      pages.FreePages(p, SLAB_PAGES);
    }

    method UnlistSlab(c: nat, p: nat, ghost idx: nat)
      requires ListsOk(slabs, next, prev, partial, pls) && c < CLASSES && |partial| == |pls| == CLASSES
      requires idx < |pls[c]| && pls[c][idx] == p
      requires p in next && p in prev
      modifies this`next, this`prev, this`partial, this`pls
      ensures ListsOk(slabs - {p}, next, prev, partial, pls)
    {
      hide ListsOk, Set, Without;
      Unlisted(slabs, next, prev, partial, pls, c, idx);
      PartialRemove(c, p, idx);
    }

    /** Give up a slab whose count says that it is wholly free, unless it is the only one with room. */
    method Trim(p: nat, c: nat, ghost was: Slabs, ghost broken: bool)
      requires ListsOk(slabs, next, prev, partial, pls) && p in slabs && slabs[p].cls == c < CLASSES
      requires slabs[p].freeCount > 0
      requires pages.Valid() && HeapPages.PagesOf(p, SLAB_PAGES) <= pages.live && p + SLAB_PAGES <= pages.limit
      requires OneSpare(was) && SameBut(was, slabs, p)
      requires !broken ==> Shape()
      requires broken ==> Broken(slabs, mem, p) && (slabs[p].freeCount == Total(c) ==> HasLive(allocs, p))
      modifies this`slabs, this`fls, this`regions, this`next, this`prev, this`partial, this`pls, pages, pages.runs,
               pages.owner
      ensures OneSpare(slabs) && (Shape() <==> !broken)
    {
      hide DataOk, ListsOk, RegionsOk, HeapPages.PagesOf, Total, HeapPages.PageHeap.Valid, OneSpare, Broken, SameBut,
           HasLive,
           HeapPages.Cleared;
      ghost var idx := PlaceInList(slabs, next, prev, partial, pls, p);
      if slabs[p].freeCount == Total(c) && (next[p] >= 0 || prev[p] >= 0) {
        SameButGone(was, slabs, p);
        SpareKept(was, slabs - {p}, p);
        if !broken {
          Destroyed(Now(), pages.live, p);
        }
        SlabDestroy(p);
        fls := fls - {p};
        regions := regions - {p};
        if broken { NotLive(Now(), p); }
        return;
      }
      if slabs[p].freeCount == Total(c) {
        SpareAlone(was, slabs, next, prev, partial, pls, p, idx);
      } else {
        SpareKept(was, slabs, p);
      }
      if broken { NotThreaded(Now(), p); }
    }

    /** The object at `ptr`, unless that is not where one starts, goes back; a slab that is then wholly
        free and not the only one with room is given up. Freeing a free object breaks the heap. */
    method SlabFree(p: nat, ptr: nat) returns (ghost k: nat)
      requires Shape() && p in slabs && p in fls && slabs[p].cls < CLASSES && OneSpare(slabs)
      modifies this`slabs, this`fls, this`mem, this`regions, this`next, this`prev, this`partial, this`pls,
               this`liveObjects, this`allocs,
               pages, pages.runs, pages.owner
      ensures OneSpare(slabs) && (Shape() <==> old(NotFree(fls[p], p, slabs[p].cls, ptr)))
      ensures old(Starts(p, slabs[p].cls, ptr) && NotFree(fls[p], p, slabs[p].cls, ptr)) ==>
                k < |old(allocs)| && Placed(old(allocs)[k], old(slabs[p].cls), ptr) && allocs == Drop(old(allocs), k)
      ensures !old(Starts(p, slabs[p].cls, ptr) && NotFree(fls[p], p, slabs[p].cls, ptr)) ==> allocs == old(allocs)
    {
      hide DataOk, ListsOk, RegionsOk, HeapPages.PagesOf, ObjAddr, Total, Drop, HeapPages.PageHeap.Valid, OneSpare,
           NotFree, Starts,
           Broken, SameBut, HasLive;
      k := 0;
      var c := slabs[p].cls;
      StartsIs(p, c, ptr);
      FreeStarts(Now(), p, ptr);
      var off := ptr - (p * PAGE + SLAB_HDR);
      if off < 0 || off % ClassSize(c) != 0 || off / ClassSize(c) >= Total(c) { return; }
      var i := off / ClassSize(c);
      FreeIs(fls[p], p, c, i);
      ghost var broken := i in fls[p];
      if broken {
        HeldToo(Now(), p);
      } else {
        k := LiveAt(Now(), p, i);
      }
      SlabSpace(Now(), pages.live, p);
      OwnerSize();
      GiveBack(p, i, c, k);
      Trim(p, c, old(slabs), broken);
    }

    // ---- large allocations -----------------------------------------------------------------------------

    method LargeAlloc(size: nat, mappable: nat) returns (addr: nat, ghost a: Alloc)
      requires Shape()
      modifies this`larges, this`regions, this`largeAllocs, this`allocs, pages, pages.runs, pages.owner
      ensures Shape() && (addr == 0 ==> allocs == old(allocs))
      ensures addr > 0 ==> allocs == old(allocs) + [a] && a.Big? && a.size == size && Addr(a) == addr
      ensures addr == 0
              <==> old(NoPages(LargePages(size), mappable))
    {
      hide DataOk, ListsOk, RegionsOk, HeapPages.PagesOf, TaggedAs, HeapPages.PageHeap.Valid, Apart, LargePages;
      a := Big(0, 0);
      LargeInside(0, size);
      var n := LargePages(size);
      var p := GetPages(n, mappable);
      if p < 0 { return 0, a; }
      FreshLarge(Now(), p, n, size);
      larges := larges[p := Large(n, size)];
      regions := regions[p := n];
      largeAllocs := largeAllocs + 1;
      a := Big(p, size);
      allocs := allocs + [a];
      return p * PAGE + LARGE_HDR, a;
    }

    method LargeFree(p: nat) returns (ghost k: nat)
      requires Shape() && p in larges
      modifies this`larges, this`regions, this`largeAllocs, this`allocs, pages, pages.runs, pages.owner
      ensures Shape() && k < |old(allocs)| && old(allocs)[k] == Big(p, old(larges)[p].size)
      ensures allocs == Drop(old(allocs), k)
    {
      hide DataOk, ListsOk, RegionsOk, HeapPages.PagesOf, HeapPages.PageHeap.Valid, HeapPages.Cleared, Drop;
      k := BigAt(Now(), p);
      LargeGone(Now(), pages.live, p, k);
      OwnerSize();
      var n := larges[p].pages;
      largeAllocs := largeAllocs - 1;
      larges := larges - {p};
      regions := regions - {p};
      allocs := Drop(allocs, k);
      pages.FreePages(p, n);
    }

    /** No `n` pages in a row can be had. */
    ghost predicate NoPages(n: nat, mappable: nat)
      requires pages.nruns <= pages.runs.Length
      reads this, pages, pages.runs
    {
      mappable < n || (pages.NoRunFits(n) && pages.bump + n > pages.limit)
    }

    // ---- kmalloc and kfree -------------------------------------------------------------------------------

    static method CacheFor(size: nat) returns (c: nat)
      requires size <= MAX_SMALL
      ensures c < CLASSES && IsClass(c, size)
    {
      c := 0;
      assert size <= ClassSize(CLASSES - 1);
      while c < CLASSES && size > ClassSize(c)
        invariant c <= CLASSES && forall d: nat :: d < c ==> size > ClassSize(d)
        decreases CLASSES - c
      {
        c := c + 1;
      }
    }

    /** Memory of at least `size` bytes, 16-byte aligned, that nobody else has; 0 if `size` is 0 or no
        pages can be had. */
    method Kmalloc(size: nat, mappable: nat) returns (addr: nat, ghost a: Alloc)
      requires Valid()
      modifies this, pages, pages.runs, pages.owner
      ensures Valid() && (addr == 0 ==> allocs == old(allocs)) && (size == 0 ==> addr == 0)
      ensures addr > 0 ==>
                allocs == old(allocs) + [a] && Addr(a) == addr && Charge(a) >= size && (size > MAX_SMALL <==> a.Big?)
      ensures size > MAX_SMALL ==> (addr == 0 <==> old(NoPages(LargePages(size), mappable)))
      ensures forall c: nat :: size > 0 && IsClass(c, size) ==>
                (addr == 0 <==> old(partial[c] < 0 && NoPages(SLAB_PAGES, mappable)))
    {
      hide Valid, Addr, LargePages, NoPages, ClassSize, Charge;
      a := Big(0, 0);
      if size == 0 { return 0, a; }
      if size > MAX_SMALL {
        addr, a := LargeCharged(size, mappable);
        return;
      }
      var c := CacheFor(size);
      addr, a := SmallCharged(c, mappable);
    }

    method LargeCharged(size: nat, mappable: nat) returns (addr: nat, ghost a: Alloc)
      requires Valid()
      modifies this`larges, this`regions, this`largeAllocs, this`allocs, this`bytesRequested, pages, pages.runs,
               pages.owner
      ensures Valid() && (addr == 0 ==> allocs == old(allocs))
      ensures addr > 0 ==> allocs == old(allocs) + [a] && a.Big? && Charge(a) == size && Addr(a) == addr
      ensures addr == 0 <==> old(NoPages(LargePages(size), mappable))
    {
      hide Shape, Bytes, Addr, LargePages, OneSpare, NoPages;
      addr, a := LargeAlloc(size, mappable);
      if addr > 0 {
        AddCounts(old(allocs), a, 0);
        Charged(bytesRequested + size);
      }
    }

    method SmallCharged(c: nat, mappable: nat) returns (addr: nat, ghost a: Alloc)
      requires Valid() && c < CLASSES
      modifies this, pages, pages.runs, pages.owner
      ensures Valid() && (addr == 0 ==> allocs == old(allocs))
      ensures addr > 0 ==> allocs == old(allocs) + [a] && a.Small? && Charge(a) == ClassSize(c) && Addr(a) == addr
      ensures addr == 0 <==> old(partial[c] < 0 && NoPages(SLAB_PAGES, mappable))
    {
      hide Shape, Bytes, Addr, OneSpare, NoPages, ClassSize;
      addr, a := SlabAlloc(c, mappable);
      if addr > 0 {
        AddCounts(old(allocs), a, 0);
        Charged(bytesRequested + ClassSize(c));
      }
    }

    method Charged(bytes: int)
      requires Shape()
      modifies this`bytesRequested
      ensures Shape() && bytesRequested == bytes
    {
      hide DataOk, ListsOk, RegionsOk, HeapPages.PageHeap.Valid;
      bytesRequested := bytes;
    }

    /** Free what `ptr` points to: exactly the live allocation there, if there is one. A pointer to a free
        object breaks the heap. A pointer into a slab that is no object's start changes nothing but the byte
        count, which is charged before that is noticed; any other stray pointer is ignored. */
    method Kfree(ptr: int) returns (ghost k: nat)
      requires Valid()
      modifies this, pages, pages.runs, pages.owner
      ensures OneSpare(slabs) && (Shape() <==> old(!OnFreelist(slabs, fls, ptr)))
      ensures old(AtPtr(allocs, ptr)) ==>
                k < |old(allocs)| && Addr(old(allocs)[k]) == ptr && allocs == Drop(old(allocs), k)
      ensures old(!AtPtr(allocs, ptr)) ==> allocs == old(allocs)
      ensures Valid() <==> old(AtPtr(allocs, ptr) || !InSlabs(slabs, ptr))
    {
      hide DataOk, ListsOk, RegionsOk, HeapPages.PagesOf, HeapPages.PageHeap.Valid, Bytes, OnFreelist, Drop, AtPtr,
           InSlabs, OneSpare;
      k := 0;
      OwnerSize();
      FreeInSlab(Now(), ptr);
      if ptr < 0 || ptr / PAGE >= pages.limit || pages.owner[ptr / PAGE] == 0 {
        NoOwner(Now(), ptr);
        return;
      }
      if pages.owner[ptr / PAGE] == LARGE_TAG {
        LargeOwner(Now(), ptr);
        k := KfreeLarge(ptr);
      } else {
        k := KfreeSmall(ptr);
      }
    }

    method KfreeLarge(ptr: nat) returns (ghost k: nat)
      requires Valid() && ptr / PAGE < pages.limit
      requires (AtPtr(allocs, ptr) ==> ptr % PAGE == LARGE_HDR && ptr / PAGE in larges)
      modifies this`larges, this`regions, this`largeAllocs, this`allocs, this`bytesRequested, pages, pages.runs,
               pages.owner
      ensures Valid()
      ensures old(AtPtr(allocs, ptr)) ==>
                k < |old(allocs)| && Addr(old(allocs)[k]) == ptr && allocs == Drop(old(allocs), k)
      ensures old(!AtPtr(allocs, ptr)) ==> allocs == old(allocs)
    {
      hide DataOk, ListsOk, RegionsOk, HeapPages.PagesOf, HeapPages.PageHeap.Valid, Bytes, Drop, OneSpare;
      k := 0;
      var p := ptr / PAGE;
      if ptr % PAGE != LARGE_HDR || p !in larges { return; }
      bytesRequested := bytesRequested - larges[p].size;
      k := LargeFree(p);
      DropCounts(old(allocs), k, 0);
      assert old(allocs)[k] in old(allocs);
    }

    method KfreeSmall(ptr: nat) returns (ghost k: nat)
      requires Valid() && ptr / PAGE < pages.limit && pages.owner.Length == pages.limit
      requires pages.owner[ptr / PAGE] != 0 && pages.owner[ptr / PAGE] != LARGE_TAG
      modifies this`slabs, this`fls, this`mem, this`regions, this`next, this`prev, this`partial, this`pls,
               this`liveObjects, this`allocs,
               this`bytesRequested, pages, pages.runs, pages.owner
      ensures OneSpare(slabs) && (Shape() <==> old(!OnFreelist(slabs, fls, ptr)))
      ensures (Valid() <==> old(AtPtr(allocs, ptr))) && old(InSlabs(slabs, ptr))
      ensures old(AtPtr(allocs, ptr)) ==>
                k < |old(allocs)| && Addr(old(allocs)[k]) == ptr && allocs == Drop(old(allocs), k)
      ensures old(!AtPtr(allocs, ptr)) ==> allocs == old(allocs)
    {
      hide DataOk, ListsOk, RegionsOk, HeapPages.PagesOf, HeapPages.PageHeap.Valid, Bytes, Drop, AtPtr, Starts, InSlabs,
           NotFree, OneSpare,
           OnFreelist;
      OwnedPage(ptr / PAGE);
      SlabOwner(Now(), pages.live, ptr);
      var p := pages.owner[ptr / PAGE] - 2;
      SlabLists(Now(), p, ptr);
      var c := slabs[p].cls;
      bytesRequested := bytesRequested - ClassSize(c);
      k := SlabFree(p, ptr);
      if old(AtPtr(allocs, ptr)) { DropCounts(old(allocs), k, 0); }
    }

    lemma OwnedPage(x: nat)
      requires pages.Valid() && x < pages.owner.Length && pages.owner[x] != 0
      ensures x in pages.live && |pages.owner[..]| == pages.owner.Length && pages.owner[..][x] == pages.owner[x]
    {
    }

    /** Live allocations are aligned, in the heap's pages, and do not overlap. */
    lemma LiveApart(i: nat, j: nat)
      requires Shape() && i < |allocs| && j < |allocs| && i != j
      ensures Addr(allocs[i]) % 16 == 0 && Addr(allocs[i]) > 0
      ensures Addr(allocs[i]) + Charge(allocs[i]) <= pages.limit * PAGE
      ensures Addr(allocs[i]) + Charge(allocs[i]) <= Addr(allocs[j])
              || Addr(allocs[j]) + Charge(allocs[j]) <= Addr(allocs[i])
    {
      hide ListsOk, RegionsOk, RegionsAre, SlabsOk, CountsOk, TagsOk, Addr, Charge, HeapPages.PageHeap.Valid;
      LiveOnes(allocs, slabs, fls, larges, i);
      LiveOnes(allocs, slabs, fls, larges, j);
      hide AllocsOk, IsLive;
      InRegion(allocs[i], regions, slabs, fls, larges);
      OwnerSize();
      RegionInside(slabs, larges, regions, pages.owner[..], allocs[i].page);
      Disjoint(allocs[i], allocs[j], regions, pages.live, slabs, fls, larges);
    }

    lemma SmallOwner(a: Alloc)
      requires Shape() && a in allocs && a.Small?
      ensures Addr(a) / PAGE < pages.owner.Length && pages.owner[Addr(a) / PAGE] == Tag(a.page) && a.page in slabs
    {
      hide DataOk, ListsOk, RegionsOk, Addr, HeapPages.PageHeap.Valid;
      OwnerSize();
      AllocTag(Now(), a);
    }

    /** No object starts where a slab does: its header is there. */
    lemma HeaderIsStray(p: nat)
      requires Shape() && p in slabs
      ensures InSlabs(slabs, p * PAGE) && !AtPtr(allocs, p * PAGE) && !OnFreelist(slabs, fls, p * PAGE)
    {
      hide ListsOk, AllocsOk, CountsOk, HeapPages.PageHeap.Valid, NotFree, AtPtr, OnFreelist;
      SlabTag(slabs, larges, pages.owner[..], p, p * PAGE);
      assert SlabOk(slabs[p], mem, p, fls[p]);
      hide DataOk, RegionsOk;
      SlabLists(Now(), p, p * PAGE);
      FreeStarts(Now(), p, p * PAGE);
      StartsIs(p, slabs[p].cls, p * PAGE);
    }

    lemma FirstFree(p: nat)
      requires Shape() && p in slabs && slabs[p].freeCount > 0
      ensures OnFreelist(slabs, fls, slabs[p].freelist) && !AtPtr(allocs, slabs[p].freelist)
    {
      hide ListsOk, AllocsOk, CountsOk, HeapPages.PageHeap.Valid, AtPtr, ObjAddr, Total;
      var ptr := slabs[p].freelist;
      assert SlabOk(slabs[p], mem, p, fls[p]);
      assert !NotFree(fls[p], p, slabs[p].cls, ptr) by { assert ObjAddr(p, slabs[p].cls, fls[p][0]) == ptr; }
      hide NotFree;
      FreeStarts(Now(), p, ptr);
      SlabTag(slabs, larges, pages.owner[..], p, ptr);
      hide DataOk, RegionsOk;
      SlabLists(Now(), p, ptr);
    }

    /** All freed: what is kept is at most one slab of each class. */
    lemma Quiet()
      requires Valid() && allocs == []
      ensures larges == map[] && |pages.live| <= CLASSES * SLAB_PAGES
    {
      hide DataOk, ListsOk, RegionsOk, HeapPages.PageHeap.Valid;
      QuietHeap(Now(), pages.live);
    }

    /** A holder writes bytes [a, a + n) of its memory, however they lie across words: no freelist is
        touched. `after` is what memory then holds. */
    method UserWrite(a: nat, n: nat, after: Memory, ghost k: nat)
      requires Shape() && k < |allocs| && Addr(allocs[k]) <= a && a + n <= Addr(allocs[k]) + Charge(allocs[k])
      requires WroteBytes(mem, after, a, n)
      modifies this`mem
      ensures Shape() && mem == after
    {
      hide DataOk, ListsOk, HeapPages.PagesOf, HeapPages.PageHeap.Valid, Addr, Charge, OneSpare, WroteBytes;
      WriteLive(Now(), after, pages.live, k, a, n);
      mem := after;
    }
  }

  /** Freeing the start of any slab is not a free, but is charged: the byte count is wrong from then on. */
  method FreeHeader(limit: nat, size: nat) returns (h: Kheap)
    requires limit >= SLAB_PAGES && 0 < size <= MAX_SMALL
    ensures fresh(h) && h.Shape() && !h.Valid() && |h.allocs| == 1
  {
    hide DataOk, ListsOk, RegionsOk, HeapPages.PagesOf, HeapPages.PageHeap.Valid, Bytes, OneSpare, OnFreelist, AtPtr,
         InSlabs;
    h := new Kheap(limit);
    var c := Kheap.CacheFor(size);
    var addr, a := h.Kmalloc(size, SLAB_PAGES);
    h.SmallOwner(a);
    var p := h.pages.owner[addr / PAGE] - 2;
    h.HeaderIsStray(p);
    var _ := h.Kfree(p * PAGE);
  }

  /** Freeing a free object, here the first of any class that has one, breaks every heap. */
  method FreeFree(h: Kheap, c: nat)
    requires h.Valid() && c < CLASSES && h.partial[c] >= 0
    modifies h, h.pages, h.pages.runs, h.pages.owner
    ensures !h.Shape() && h.allocs == old(h.allocs)
  {
    hide DataOk, RegionsOk, HeapPages.PagesOf, HeapPages.PageHeap.Valid, Bytes, OneSpare, OnFreelist, AtPtr, InSlabs,
         Drop;
    HeadHasRoom(h.slabs, h.next, h.prev, h.partial, h.pls, c);
    hide ListsOk;
    var p := h.partial[c];
    h.FirstFree(p);
    var _ := h.Kfree(h.slabs[p].freelist);
  }

  /** The class of the smallest objects `size` bytes fit in. */
  predicate IsClass(c: nat, size: nat) {
    c < CLASSES && size <= ClassSize(c) && forall d: nat :: d < c ==> size > ClassSize(d)
  }

  /** `ptr` is none of the free objects. */
  predicate NotFree(fl: seq<nat>, p: nat, c: nat, ptr: int)
    requires c < CLASSES
  {
    forall i :: 0 <= i < |fl| ==> ObjAddr(p, c, fl[i]) != ptr
  }

  /** `ptr` is where an object of the slab starts. */
  ghost predicate Starts(p: nat, c: nat, ptr: int)
    requires c < CLASSES
  {
    exists i: nat :: i < Total(c) && ObjAddr(p, c, i) == ptr
  }

  lemma StartsIs(p: nat, c: nat, ptr: nat)
    requires c < CLASSES
    ensures Starts(p, c, ptr) <==>
              ptr >= p * PAGE + SLAB_HDR && (ptr - (p * PAGE + SLAB_HDR)) % ClassSize(c) == 0
              && (ptr - (p * PAGE + SLAB_HDR)) / ClassSize(c) < Total(c)
    ensures ptr >= p * PAGE + SLAB_HDR && (ptr - (p * PAGE + SLAB_HDR)) % ClassSize(c) == 0
            ==> (ptr - (p * PAGE + SLAB_HDR)) / ClassSize(c) >= 0
                && ObjAddr(p, c, (ptr - (p * PAGE + SLAB_HDR)) / ClassSize(c)) == ptr
  {
    hide Total;
    var s, base := ClassSize(c), p * PAGE + SLAB_HDR;
    if ptr >= base && (ptr - base) % s == 0 {
      var i: nat := (ptr - base) / s;
      assert ptr - base == s * i;
      assert ObjAddr(p, c, i) == ptr;
      assert i < Total(c) ==> Starts(p, c, ptr);
    }
    if Starts(p, c, ptr) {
      var i: nat :| i < Total(c) && ObjAddr(p, c, i) == ptr;
      ModOf(s, i, 0);
      Unique(s, i, 0, (ptr - base) / s, 0);
      assert (ptr - base) / s == i;
    }
  }

  // ---- freeing what is free ------------------------------------------------------------------------

  /** No list runs through the slab's freelist. */
  ghost predicate Broken(slabs: Slabs, mem: Memory, p: nat) {
    p in slabs && forall fl: seq<nat> :: !SlabOk(slabs[p], mem, p, fl)
  }

  ghost predicate HasLive(allocs: seq<Alloc>, p: nat) { exists a :: a in allocs && a.Small? && a.page == p }

  /** `ptr` is a free object of some slab. */
  ghost predicate OnFreelist(slabs: Slabs, fls: Freelists, ptr: int) {
    exists p :: p in slabs && p in fls && slabs[p].cls < CLASSES && !NotFree(fls[p], p, slabs[p].cls, ptr)
  }

  lemma FreeIs(fl: seq<nat>, p: nat, c: nat, i: nat)
    requires c < CLASSES
    ensures NotFree(fl, p, c, ObjAddr(p, c, i)) <==> i !in fl
  {
    hide ObjAddr;
    forall k | 0 <= k < |fl| && fl[k] != i ensures ObjAddr(p, c, fl[k]) != ObjAddr(p, c, i) {
      ObjInjective(p, c, fl[k], i);
    }
  }

  lemma FreedTwice(h: Heap, p: nat, i: nat)
    requires DataOk(h)
    requires p in h.slabs && p in h.fls && i in h.fls[p]
    ensures h.slabs[p].cls < CLASSES
    ensures Broken(h.slabs[p := Slab(h.slabs[p].cls, h.slabs[p].freeCount + 1, ObjAddr(p, h.slabs[p].cls, i))],
                   h.mem[ObjAddr(p, h.slabs[p].cls, i) := h.slabs[p].freelist], p)
  {
    hide AllocsOk, CountsOk, RegionsAre, TagsOk, ObjAddr, Total;
    assert SlabOk(h.slabs[p], h.mem, p, h.fls[p]);
    hide SlabsOk, Threaded;
    var j :| 0 <= j < |h.fls[p]| && h.fls[p][j] == i;
    var c, addr := h.slabs[p].cls, ObjAddr(p, h.slabs[p].cls, i);
    var mem' := h.mem[addr := h.slabs[p].freelist];
    forall fl: seq<nat> ensures !Threaded(mem', p, c, addr, fl) {
      Cycle(h.mem, p, c, h.slabs[p].freelist, h.fls[p], j, fl);
    }
  }

  lemma LiveCounts(h: Heap)
    requires DataOk(h)
    ensures |h.liveObjects| == CLASSES
  {
    hide SlabsOk, AllocsOk, RegionsAre, TagsOk;
  }

  lemma NotThreaded(h: Heap, p: nat)
    requires Broken(h.slabs, h.mem, p)
    ensures !DataOk(h)
  {
    hide AllocsOk, CountsOk, RegionsAre, TagsOk, SlabOk;
  }

  lemma NotLive(h: Heap, p: nat)
    requires HasLive(h.allocs, p) && p !in h.slabs
    ensures !DataOk(h)
  {
    hide SlabsOk, CountsOk, RegionsAre, TagsOk;
    var a :| a in h.allocs && a.Small? && a.page == p;
    assert !IsLive(a, h.slabs, h.fls, h.larges);
  }

  /** A slab that lacks one free object has a live one. */
  lemma HeldToo(h: Heap, p: nat)
    requires DataOk(h) && p in h.slabs
    ensures h.slabs[p].cls < CLASSES && (h.slabs[p].freeCount + 1 == Total(h.slabs[p].cls) ==> HasLive(h.allocs, p))
  {
    hide CountsOk, RegionsAre, TagsOk, ObjAddr, Total, Elems, HeapPages.PagesOf;
    var fl := h.fls[p];
    assert SlabOk(h.slabs[p], h.mem, p, fl);
    hide SlabsOk;
    var c := h.slabs[p].cls;
    if |fl| + 1 == Total(c) {
      var i := Missing(fl, Total(c));
      assert IsLive(Small(p, i, c), h.slabs, h.fls, h.larges);
      assert Small(p, i, c) in h.allocs;
    }
  }

  lemma Missing(fl: seq<nat>, n: nat) returns (i: nat)
    requires Distinct(fl) && |fl| < n
    ensures i < n && i !in fl
  {
    hide Elems, HeapPages.PagesOf;
    ElemsHas(fl);
    ElemsSize(fl);
    HeapPages.PagesHas(0, n);
    HeapPages.PagesSize(0, n);
    if HeapPages.PagesOf(0, n) <= Elems(fl) { Smaller(HeapPages.PagesOf(0, n), Elems(fl)); }
    i :| i in HeapPages.PagesOf(0, n) && i !in Elems(fl);
  }

  lemma SlabSpace(h: Heap, live: set<nat>, p: nat)
    requires DataOk(h) && RegionsOk(h.regions, live)
    requires p in h.slabs
    ensures HeapPages.PagesOf(p, SLAB_PAGES) <= live && p + SLAB_PAGES <= |h.owner|
  {
    hide SlabsOk, AllocsOk, CountsOk, HeapPages.PagesOf, LargePages;
    assert TaggedAs(h.owner, p, SLAB_PAGES, Tag(p));
  }

  /** A free object is where one starts. */
  lemma FreeStarts(h: Heap, p: nat, ptr: int)
    requires DataOk(h) && p in h.slabs && p in h.fls
    ensures h.slabs[p].cls < CLASSES && (!NotFree(h.fls[p], p, h.slabs[p].cls, ptr) ==> Starts(p, h.slabs[p].cls, ptr))
    ensures !NotFree(h.fls[p], p, h.slabs[p].cls, ptr) ==> p * PAGE <= ptr < (p + SLAB_PAGES) * PAGE
  {
    hide AllocsOk, CountsOk, RegionsAre, TagsOk, ObjAddr, Total;
    assert SlabOk(h.slabs[p], h.mem, p, h.fls[p]);
    hide SlabsOk;
    var c := h.slabs[p].cls;
    forall k | 0 <= k < |h.fls[p]| && ObjAddr(p, c, h.fls[p][k]) == ptr
      ensures Starts(p, c, ptr) && p * PAGE <= ptr < (p + SLAB_PAGES) * PAGE
    {
      ObjInside(p, c, h.fls[p][k]);
    }
  }

  lemma FreeInSlab(h: Heap, ptr: int)
    requires DataOk(h)
    ensures OnFreelist(h.slabs, h.fls, ptr) ==> InSlabs(h.slabs, ptr)
  {
    hide DataOk, NotFree;
    if OnFreelist(h.slabs, h.fls, ptr) {
      var p :| p in h.slabs && p in h.fls && h.slabs[p].cls < CLASSES && !NotFree(h.fls[p], p, h.slabs[p].cls, ptr);
      FreeStarts(h, p, ptr);
    }
  }

  /** Free and live objects at a pointer are those of the slab its page names. */
  lemma SlabLists(h: Heap, p: nat, ptr: nat)
    requires DataOk(h)
    requires ptr / PAGE < |h.owner| && h.owner[ptr / PAGE] == Tag(p)
    requires p in h.slabs && p in h.fls && h.slabs[p].cls < CLASSES
    ensures OnFreelist(h.slabs, h.fls, ptr) <==> !NotFree(h.fls[p], p, h.slabs[p].cls, ptr)
    ensures AtPtr(h.allocs, ptr) <==> Starts(p, h.slabs[p].cls, ptr) && NotFree(h.fls[p], p, h.slabs[p].cls, ptr)
  {
    OwnFreelist(h, p, ptr);
    OwnObject(h, p, ptr);
  }

  lemma OwnFreelist(h: Heap, p: nat, ptr: nat)
    requires DataOk(h)
    requires ptr / PAGE < |h.owner| && h.owner[ptr / PAGE] == Tag(p)
    requires p in h.slabs && p in h.fls && h.slabs[p].cls < CLASSES
    ensures OnFreelist(h.slabs, h.fls, ptr) <==> !NotFree(h.fls[p], p, h.slabs[p].cls, ptr)
  {
    hide SlabsOk, AllocsOk, CountsOk, RegionsAre, TagsOk, NotFree;
    if OnFreelist(h.slabs, h.fls, ptr) {
      var q :| q in h.slabs && q in h.fls && h.slabs[q].cls < CLASSES && !NotFree(h.fls[q], q, h.slabs[q].cls, ptr);
      FreeStarts(h, q, ptr);
      SlabTag(h.slabs, h.larges, h.owner, q, ptr);
    }
  }

  lemma OwnObject(h: Heap, p: nat, ptr: nat)
    requires DataOk(h)
    requires ptr / PAGE < |h.owner| && h.owner[ptr / PAGE] == Tag(p)
    requires p in h.slabs && p in h.fls && h.slabs[p].cls < CLASSES
    ensures AtPtr(h.allocs, ptr) <==> Starts(p, h.slabs[p].cls, ptr) && NotFree(h.fls[p], p, h.slabs[p].cls, ptr)
  {
    hide CountsOk, RegionsAre, TagsOk, ObjAddr, Total, SlabsOk, NotFree, Addr, AllocsOk;
    var c := h.slabs[p].cls;
    if AtPtr(h.allocs, ptr) {
      var a :| a in h.allocs && Addr(a) == ptr;
      AllocTag(h, a);
      SmallStarts(h.slabs, h.fls, h.larges, a);
      SmallAt(a);
      FreeIs(h.fls[p], p, c, a.idx);
    }
    if Starts(p, c, ptr) && NotFree(h.fls[p], p, c, ptr) {
      var i: nat :| i < Total(c) && ObjAddr(p, c, i) == ptr;
      var k := LiveAt(h, p, i);
      SmallAt(h.allocs[k]);
      assert h.allocs[k] in h.allocs;
    }
  }

  lemma SmallAt(a: Alloc)
    requires a.Small? && a.cls < CLASSES
    ensures Addr(a) == ObjAddr(a.page, a.cls, a.idx)
  {
  }

  lemma LiveAt(h: Heap, p: nat, i: nat) returns (k: nat)
    requires DataOk(h)
    requires p in h.slabs && p in h.fls && h.slabs[p].cls < CLASSES && i < Total(h.slabs[p].cls)
    requires NotFree(h.fls[p], p, h.slabs[p].cls, ObjAddr(p, h.slabs[p].cls, i))
    ensures k < |h.allocs| && h.allocs[k] == Small(p, i, h.slabs[p].cls)
  {
    hide SlabsOk, CountsOk, RegionsAre, TagsOk, Total, ObjAddr;
    assert i !in h.fls[p];
    assert IsLive(Small(p, i, h.slabs[p].cls), h.slabs, h.fls, h.larges);
    assert Small(p, i, h.slabs[p].cls) in h.allocs;
    k :| 0 <= k < |h.allocs| && h.allocs[k] == Small(p, i, h.slabs[p].cls);
  }

  lemma BigAt(h: Heap, p: nat) returns (k: nat)
    requires DataOk(h) && p in h.larges
    ensures k < |h.allocs| && h.allocs[k] == Big(p, h.larges[p].size)
  {
    hide SlabsOk, CountsOk, RegionsAre, TagsOk, Total;
    assert IsLive(Big(p, h.larges[p].size), h.slabs, h.fls, h.larges);
    assert Big(p, h.larges[p].size) in h.allocs;
    k :| 0 <= k < |h.allocs| && h.allocs[k] == Big(p, h.larges[p].size);
  }

  lemma FreshLarge(h: Heap, p: nat, n: nat, size: nat)
    requires DataOk(h) && p !in h.slabs
    requires p !in h.larges
    requires n == LargePages(size) && TaggedAs(h.owner, p, n, LARGE_TAG)
    ensures DataOk(h.(larges := h.larges[p := Large(n, size)], regions := h.regions[p := n],
                      allocs := h.allocs + [Big(p, size)], largeAllocs := h.largeAllocs + 1))
  {
    hide SlabsOk, CountsOk, AllocsOk, TaggedAs, LargePages;
    BigCame(h.allocs, h.slabs, h.fls, h.larges, p, Large(n, size));
    AddCountsOk(h.allocs, h.liveObjects, h.largeAllocs, Big(p, size));
  }

  lemma LargeGone(h: Heap, live: set<nat>, p: nat, k: nat)
    requires DataOk(h) && RegionsOk(h.regions, live)
    requires p in h.larges && k < |h.allocs| && h.allocs[k] == Big(p, h.larges[p].size)
    ensures p + h.larges[p].pages <= |h.owner| && HeapPages.PagesOf(p, h.larges[p].pages) <= live
    ensures RegionsOk(h.regions - {p}, live - HeapPages.PagesOf(p, h.larges[p].pages))
    ensures DataOk(h.(larges := h.larges - {p}, regions := h.regions - {p},
                      owner := HeapPages.Cleared(h.owner, p, h.larges[p].pages),
                      allocs := Drop(h.allocs, k), largeAllocs := h.largeAllocs - 1))
  {
    hide HeapPages.PagesOf, HeapPages.Cleared, AllocsOk, TagsOk, CountsOk, SlabsOk, LargePages, Drop;
    BigWent(h.allocs, h.slabs, h.fls, h.larges, k);
    DropCountsOk(h.allocs, h.liveObjects, h.largeAllocs, k);
    LargeSpace(h.slabs, h.larges, h.regions, live, p);
    hide RegionsOk;
    RegionWent(h.regions, live, p);
    WentTags(h.owner, h.slabs, h.larges, h.regions, live, p);
    hide RegionsAre;
  }

  lemma LargeSpace(slabs: Slabs, larges: Larges, regions: Regions, live: set<nat>, p: nat)
    requires RegionsAre(regions, slabs, larges) && RegionsOk(regions, live) && p in larges
    ensures RegionsAre(regions - {p}, slabs, larges - {p}) && regions[p] == larges[p].pages
    ensures HeapPages.PagesOf(p, larges[p].pages) <= live
    ensures p !in slabs && p in regions
  {
    hide HeapPages.PagesOf, LargePages;
  }

  // ---- what a pointer's owner entry tells ------------------------------------------------------------

  ghost predicate InSlabs(slabs: Slabs, ptr: int) {
    exists p :: p in slabs && p * PAGE <= ptr < (p + SLAB_PAGES) * PAGE
  }

  ghost predicate AtPtr(allocs: seq<Alloc>, ptr: int) { exists a :: a in allocs && Addr(a) == ptr }

  /** An allocation's pages carry its owner's tag. */
  lemma AllocTag(h: Heap, a: Alloc)
    requires DataOk(h) && a in h.allocs
    ensures Addr(a) / PAGE < |h.owner| && IsLive(a, h.slabs, h.fls, h.larges)
    ensures a.Small? ==>
              h.owner[Addr(a) / PAGE] == Tag(a.page) && a.page * PAGE <= Addr(a) < (a.page + SLAB_PAGES) * PAGE
    ensures a.Big? ==> h.owner[Addr(a) / PAGE] == LARGE_TAG && Addr(a) / PAGE == a.page && Addr(a) % PAGE == LARGE_HDR
  {
    hide SlabsOk, CountsOk, ObjAddr, Total, LargePages;
    assert IsLive(a, h.slabs, h.fls, h.larges);
    if a.Small? {
      ObjInside(a.page, a.cls, a.idx);
      assert TaggedAs(h.owner, a.page, SLAB_PAGES, Tag(a.page));
    } else {
      LargeInside(a.page, a.size);
      assert TaggedAs(h.owner, a.page, h.larges[a.page].pages, LARGE_TAG);
    }
  }

  lemma RegionTag(slabs: Slabs, larges: Larges, regions: Regions, o: seq<nat>, q: nat, x: nat)
    requires RegionsAre(regions, slabs, larges) && TagsOk(o, slabs, larges) && q in regions && q <= x < q + regions[q]
    requires x < |o|
    ensures (q in slabs && o[x] == Tag(q)) || (q in larges && o[x] == LARGE_TAG)
  {
    if q in slabs {
      assert TaggedAs(o, q, SLAB_PAGES, Tag(q));
    } else {
      assert TaggedAs(o, q, larges[q].pages, LARGE_TAG);
    }
  }

  lemma SlabTag(slabs: Slabs, larges: Larges, o: seq<nat>, p: nat, ptr: int)
    requires TagsOk(o, slabs, larges) && p in slabs && p * PAGE <= ptr < (p + SLAB_PAGES) * PAGE
    ensures 0 <= ptr / PAGE < |o| && o[ptr / PAGE] == Tag(p)
  {
    assert TaggedAs(o, p, SLAB_PAGES, Tag(p));
  }

  /** Not the heap's, or a page nobody has: no allocation and no slab is there. */
  lemma NoOwner(h: Heap, ptr: int)
    requires DataOk(h)
    requires ptr < 0 || ptr / PAGE >= |h.owner| || h.owner[ptr / PAGE] == 0
    ensures !AtPtr(h.allocs, ptr) && !InSlabs(h.slabs, ptr)
  {
    hide SlabsOk, CountsOk, AllocsOk, RegionsAre, TagsOk, Addr;
    forall a | a in h.allocs ensures Addr(a) != ptr {
      AllocTag(h, a);
    }
    forall p | p in h.slabs ensures !(p * PAGE <= ptr < (p + SLAB_PAGES) * PAGE) {
      if p * PAGE <= ptr < (p + SLAB_PAGES) * PAGE { SlabTag(h.slabs, h.larges, h.owner, p, ptr); }
    }
  }

  /** In a large allocation only its start is one, and no slab is there. */
  lemma LargeOwner(h: Heap, ptr: int)
    requires DataOk(h)
    requires 0 <= ptr && ptr / PAGE < |h.owner| && h.owner[ptr / PAGE] == LARGE_TAG
    ensures !InSlabs(h.slabs, ptr)
    ensures AtPtr(h.allocs, ptr) ==> ptr % PAGE == LARGE_HDR && ptr / PAGE in h.larges
  {
    hide SlabsOk, CountsOk, AllocsOk, RegionsAre, TagsOk, Addr;
    forall a | a in h.allocs && Addr(a) == ptr ensures ptr % PAGE == LARGE_HDR && ptr / PAGE in h.larges {
      AllocTag(h, a);
    }
    forall p | p in h.slabs ensures !(p * PAGE <= ptr < (p + SLAB_PAGES) * PAGE) {
      if p * PAGE <= ptr < (p + SLAB_PAGES) * PAGE { SlabTag(h.slabs, h.larges, h.owner, p, ptr); }
    }
  }

  /** Any other owner entry names the slab the pointer is in; an allocation there is one of its objects. */
  lemma SlabOwner(h: Heap, live: set<nat>, ptr: int)
    requires DataOk(h) && RegionsOk(h.regions, live)
    requires 0 <= ptr && ptr / PAGE < |h.owner| && ptr / PAGE in live
    requires h.owner[ptr / PAGE] != 0 && h.owner[ptr / PAGE] != LARGE_TAG
    ensures h.owner[ptr / PAGE] >= 2 && h.owner[ptr / PAGE] - 2 in h.slabs && h.owner[ptr / PAGE] - 2 in h.fls
    ensures h.slabs[h.owner[ptr / PAGE] - 2].cls < CLASSES
    ensures InSlabs(h.slabs, ptr)
    ensures AtPtr(h.allocs, ptr) ==> Starts(h.owner[ptr / PAGE] - 2, h.slabs[h.owner[ptr / PAGE] - 2].cls, ptr)
  {
    hide CountsOk, AllocsOk, Addr, HeapPages.PagesOf, LargePages, Threaded, SlabsOk, RegionsAre, TagsOk, Starts;
    var x := ptr / PAGE;
    assert Covered(h.regions, x);
    hide RegionsOk;
    var q :| q in h.regions && q <= x < q + h.regions[q];
    RegionTag(h.slabs, h.larges, h.regions, h.owner, q, x);
    assert q in h.slabs && h.regions[q] == SLAB_PAGES by { SlabRegion(h.regions, h.slabs, h.larges, q); }
    assert q * PAGE <= ptr < (q + SLAB_PAGES) * PAGE;
    SlabClass(h.slabs, h.mem, h.fls, q);
    forall a | a in h.allocs && Addr(a) == ptr ensures Starts(q, h.slabs[q].cls, ptr) {
      AllocTag(h, a);
      SmallStarts(h.slabs, h.fls, h.larges, a);
    }
  }

  lemma SlabRegion(regions: Regions, slabs: Slabs, larges: Larges, q: nat)
    requires RegionsAre(regions, slabs, larges) && q in slabs
    ensures q in regions && regions[q] == SLAB_PAGES
  {
  }

  lemma SlabClass(slabs: Slabs, mem: Memory, fls: Freelists, q: nat)
    requires SlabsOk(slabs, mem, fls) && q in slabs
    ensures q in fls && slabs[q].cls < CLASSES
  {
    assert SlabOk(slabs[q], mem, q, fls[q]);
  }

  lemma SmallStarts(slabs: Slabs, fls: Freelists, larges: Larges, a: Alloc)
    requires IsLive(a, slabs, fls, larges) && a.Small?
    ensures Starts(a.page, a.cls, Addr(a))
  {
    hide ObjAddr, Total;
  }

  /** The bytes of a live allocation overlap no link of a free object. */
  lemma WriteLive(h: Heap, mem': Memory, live: set<nat>, k: nat, a: nat, n: nat)
    requires DataOk(h) && RegionsOk(h.regions, live)
    requires k < |h.allocs| && Addr(h.allocs[k]) <= a && a + n <= Addr(h.allocs[k]) + Charge(h.allocs[k])
    requires WroteBytes(h.mem, mem', a, n)
    ensures DataOk(h.(mem := mem'))
  {
    hide CountsOk, TagsOk, HeapPages.PagesOf, Addr, Charge, LargePages, Covered, WroteBytes;
    var x := h.allocs[k];
    assert x in h.allocs && IsLive(x, h.slabs, h.fls, h.larges);
    InRegion(x, h.regions, h.slabs, h.fls, h.larges);
    forall q | q in h.slabs ensures SlabOk(h.slabs[q], mem', q, h.fls[q]) {
      assert SlabOk(h.slabs[q], h.mem, q, h.fls[q]);
      var c := h.slabs[q].cls;
      forall j | 0 <= j < |h.fls[q]|
        ensures ObjAddr(q, c, h.fls[q][j]) + WORD <= a || a + n <= ObjAddr(q, c, h.fls[q][j])
      {
        FreeElsewhere(x, h.regions, live, h.slabs, h.fls, h.larges, a, n, q, h.fls[q][j]);
      }
      ThreadBytes(h.mem, mem', q, c, h.slabs[q].freelist, h.fls[q], a, n);
    }
    hide AllocsOk, RegionsAre;
  }

  lemma FreeElsewhere(x: Alloc, regions: Regions, live: set<nat>, slabs: Slabs, fls: Freelists, larges: Larges, a: nat,
                      n: nat, q: nat, j: nat)
    requires RegionsAre(regions, slabs, larges) && RegionsOk(regions, live) && IsLive(x, slabs, fls, larges)
    requires Addr(x) <= a && a + n <= Addr(x) + Charge(x) && q in slabs && q in fls && slabs[q].cls < CLASSES
    requires j < Total(slabs[q].cls) && j in fls[q]
    ensures ObjAddr(q, slabs[q].cls, j) + WORD <= a || a + n <= ObjAddr(q, slabs[q].cls, j)
  {
    hide HeapPages.PagesOf, LargePages, Covered, Total;
    var c := slabs[q].cls;
    InRegion(x, regions, slabs, fls, larges);
    ObjInside(q, c, j);
    if x.page == q {
      assert x.Small? && x.cls == c && x.idx != j;
      if x.idx < j { ObjApart(q, c, x.idx, j); } else { ObjApart(q, c, j, x.idx); }
    }
  }

  lemma LiveSlab(allocs: seq<Alloc>, slabs: Slabs, mem: Memory, fls: Freelists, larges: Larges, k: nat)
    requires AllocsOk(allocs, slabs, fls, larges) && SlabsOk(slabs, mem, fls) && k < |allocs| && allocs[k].Small?
    ensures allocs[k].page in slabs && allocs[k].page in fls && slabs[allocs[k].page].cls == allocs[k].cls < CLASSES
    ensures allocs[k].idx < Total(allocs[k].cls) && allocs[k].idx !in fls[allocs[k].page]
  {
    hide Total;
    assert allocs[k] in allocs;
    assert IsLive(allocs[k], slabs, fls, larges);
  }

  /** All that pushing an object changes, but for the lists. */
  lemma PushStep(h: Heap, live: set<nat>, k: nat, p: nat, i: nat, c: nat)
    requires DataOk(h) && RegionsOk(h.regions, live)
    requires k < |h.allocs| && h.allocs[k] == Small(p, i, c)
    ensures p in h.slabs && p in h.fls && h.slabs[p].cls == c < CLASSES && |h.liveObjects| == CLASSES
    ensures DataOk(h.(slabs := h.slabs[p := Slab(c, h.slabs[p].freeCount + 1, ObjAddr(p, c, i))],
                      mem := h.mem[ObjAddr(p, c, i) := h.slabs[p].freelist], fls := h.fls[p := [i] + h.fls[p]],
                      allocs := Drop(h.allocs, k), liveObjects := h.liveObjects[c := h.liveObjects[c] - 1]))
  {
    hide SlabsOk, AllocsOk, CountsOk, RegionsOk, RegionsAre, TagsOk, ObjAddr, Total, Drop;
    LiveSlab(h.allocs, h.slabs, h.mem, h.fls, h.larges, k);
    SlabAlone(h.regions, live, h.slabs, h.larges, p);
    GiveObj(h.slabs, h.mem, h.fls, p, i);
    var s := Slab(c, h.slabs[p].freeCount + 1, ObjAddr(p, c, i));
    GaveAlloc(h.allocs, h.slabs, h.fls, h.larges, k, s);
    DropCountsOk(h.allocs, h.liveObjects, h.largeAllocs, k);
    SlabChanged(h.regions, h.slabs, h.larges, h.owner, p, s);
    CountSize(h.allocs, h.liveObjects, h.largeAllocs);
  }

  lemma Filled(slabs: Slabs, next: Links, prev: Links, partial: seq<int>, pls: seq<seq<nat>>, c: nat, p: nat, s: Slab)
    requires ListsOk(slabs, next, prev, partial, pls) && c < CLASSES && |partial| == |pls| == CLASSES
    requires p in slabs && slabs[p].freeCount == 0 && s.cls == c && s.freeCount > 0
    ensures ListsOk(slabs[p := s], next[p := partial[c]], Set(prev[p := -1], partial[c], p), partial[c := p as int],
                    pls[c := [p] + pls[c]])
  {
    hide Chain;
    forall d | 0 <= d < CLASSES ensures p !in pls[d] { assert !HasRoom(slabs, p, d); }
    Pushed(slabs, slabs[p := s], next, prev, partial, pls, c, p);
  }

  lemma PlaceInList(slabs: Slabs, next: Links, prev: Links, partial: seq<int>, pls: seq<seq<nat>>,
                    p: nat) returns (idx: nat)
    requires ListsOk(slabs, next, prev, partial, pls) && p in slabs && slabs[p].cls < CLASSES && slabs[p].freeCount > 0
    ensures |partial| == |pls| == CLASSES && idx < |pls[slabs[p].cls]| && pls[slabs[p].cls][idx] == p && p in next
    ensures p in prev
  {
    hide Chain;
    var c := slabs[p].cls;
    assert HasRoom(slabs, p, c);
    assert p in pls[c];
    idx :| 0 <= idx < |pls[c]| && pls[c][idx] == p;
    ChainAt(next, prev, partial[c], pls[c], idx);
  }

  lemma Unlisted(slabs: Slabs, next: Links, prev: Links, partial: seq<int>, pls: seq<seq<nat>>, c: nat, idx: nat)
    requires ListsOk(slabs, next, prev, partial, pls) && c < CLASSES && |partial| == |pls| == CLASSES && idx < |pls[c]|
    requires pls[c][idx] in next && pls[c][idx] in prev
    ensures var p := pls[c][idx];
            ListsOk(slabs - {p}, Set(next, prev[p], next[p])[p := -1], Set(prev, next[p], prev[p])[p := -1],
                    partial[c := if prev[p] >= 0 then partial[c] else next[p]], pls[c := Without(pls[c], idx)])
  {
    hide Chain, Set, Without;
    Removed(slabs, slabs - {pls[c][idx]}, next, prev, partial, pls, c, idx);
  }

  /** What is left when a wholly free slab goes. */
  lemma Destroyed(h: Heap, live: set<nat>, p: nat)
    requires DataOk(h) && RegionsOk(h.regions, live)
    requires p in h.slabs && h.slabs[p].cls < CLASSES && h.slabs[p].freeCount == Total(h.slabs[p].cls)
    ensures p + SLAB_PAGES <= |h.owner| && HeapPages.PagesOf(p, SLAB_PAGES) <= live
    ensures RegionsOk(h.regions - {p}, live - HeapPages.PagesOf(p, SLAB_PAGES))
    ensures DataOk(h.(slabs := h.slabs - {p}, fls := h.fls - {p}, regions := h.regions - {p},
                      owner := HeapPages.Cleared(h.owner, p, SLAB_PAGES)))
  {
    hide HeapPages.PagesOf, HeapPages.Cleared, AllocsOk, RegionsOk, TagsOk, Total, CountsOk, SlabsOk;
    WhollyFree(h.slabs, h.mem, h.fls, p);
    SlabWent(h.allocs, h.slabs, h.fls, h.larges, p);
    SlabsLess(h.slabs, h.mem, h.fls, p);
    SpaceWent(h.slabs, h.larges, h.regions, live, p);
    RegionWent(h.regions, live, p);
    WentTags(h.owner, h.slabs, h.larges, h.regions, live, p);
    hide RegionsAre;
  }

  lemma SlabsLess(slabs: Slabs, mem: Memory, fls: Freelists, p: nat)
    requires SlabsOk(slabs, mem, fls)
    ensures SlabsOk(slabs - {p}, mem, fls - {p})
  {
    hide SlabOk;
  }

  lemma WhollyFree(slabs: Slabs, mem: Memory, fls: Freelists, p: nat)
    requires SlabsOk(slabs, mem, fls) && p in slabs && slabs[p].cls < CLASSES
    requires slabs[p].freeCount == Total(slabs[p].cls)
    ensures p in fls && forall i: nat :: i < Total(slabs[p].cls) ==> i in fls[p]
  {
    hide ObjAddr, Total;
    assert SlabOk(slabs[p], mem, p, fls[p]);
    forall i: nat | i < Total(slabs[p].cls) ensures i in fls[p] { FullList(fls[p], Total(slabs[p].cls), i); }
  }

  lemma SpaceWent(slabs: Slabs, larges: Larges, regions: Regions, live: set<nat>, p: nat)
    requires RegionsAre(regions, slabs, larges) && RegionsOk(regions, live) && p in slabs
    ensures RegionsAre(regions - {p}, slabs - {p}, larges) && regions[p] == SLAB_PAGES
    ensures HeapPages.PagesOf(p, SLAB_PAGES) <= live
  {
    hide HeapPages.PagesOf, LargePages;
  }

  lemma WentTags(o: seq<nat>, slabs: Slabs, larges: Larges, regions: Regions, live: set<nat>, p: nat)
    requires TagsOk(o, slabs, larges) && RegionsOk(regions, live) && RegionsAre(regions, slabs, larges) && p in regions
    ensures p + regions[p] <= |o| && TagsOk(HeapPages.Cleared(o, p, regions[p]), slabs - {p}, larges - {p})
    ensures p in slabs ==> larges - {p} == larges
    ensures p in larges ==> slabs - {p} == slabs
  {
    hide HeapPages.PagesOf, LargePages, HeapPages.Cleared, HeapPages.Marked, TaggedAs, TagsOk, Apart, RegionsOk;
    var n := regions[p];
    RegionTagged(o, slabs, larges, regions, p);
    MarkedElsewhere(o, p, n);
    TagsLess(o, slabs, larges, p);
    ApartRest(slabs, larges, regions, live, p);
    TagsFrame(o, HeapPages.Cleared(o, p, n), slabs - {p}, larges - {p}, p, n);
    hide RegionsAre;
    NotIn(slabs, larges, p);
  }

  lemma NotIn(slabs: Slabs, larges: Larges, p: nat)
    ensures p !in larges ==> larges - {p} == larges
    ensures p !in slabs ==> slabs - {p} == slabs
  {
  }

  lemma RegionTagged(o: seq<nat>, slabs: Slabs, larges: Larges, regions: Regions, p: nat)
    requires TagsOk(o, slabs, larges) && RegionsAre(regions, slabs, larges) && p in regions
    ensures p + regions[p] <= |o|
  {
    hide LargePages;
    assert p in slabs ==> TaggedAs(o, p, SLAB_PAGES, Tag(p));
    assert p in larges ==> TaggedAs(o, p, larges[p].pages, LARGE_TAG);
  }

  lemma ApartRest(slabs: Slabs, larges: Larges, regions: Regions, live: set<nat>, p: nat)
    requires RegionsOk(regions, live) && RegionsAre(regions, slabs, larges) && p in regions
    ensures Apart(slabs - {p}, larges - {p}, p, regions[p])
  {
    hide HeapPages.PagesOf, LargePages;
  }

  /** All that popping an object changes, but for the lists. */
  lemma PopStep(h: Heap, p: nat)
    requires DataOk(h) && p in h.slabs
    requires h.slabs[p].freeCount > 0
    ensures h.slabs[p].cls < CLASSES && p in h.fls && h.fls[p] != [] && |h.liveObjects| == CLASSES
    ensures h.slabs[p].freelist > 0
    ensures Placed(Small(p, h.fls[p][0], h.slabs[p].cls), h.slabs[p].cls, h.slabs[p].freelist)
    ensures var c, i := h.slabs[p].cls, h.fls[p][0];
            DataOk(h.(slabs := h.slabs[p := Slab(c, h.slabs[p].freeCount - 1, Word(h.mem, h.slabs[p].freelist))],
                      fls := h.fls[p := h.fls[p][1..]], allocs := h.allocs + [Small(p, i, c)],
                      liveObjects := h.liveObjects[c := h.liveObjects[c] + 1]))
  {
    hide SlabsOk, AllocsOk, CountsOk, RegionsAre, TagsOk, ObjAddr, Word, Total;
    TakeObj(h.slabs, h.mem, h.fls, p);
    ObjInside(p, h.slabs[p].cls, h.fls[p][0]);
    var s := Slab(h.slabs[p].cls, h.slabs[p].freeCount - 1, Word(h.mem, h.slabs[p].freelist));
    TookAlloc(h.allocs, h.slabs, h.fls, h.larges, p, s);
    AddCountsOk(h.allocs, h.liveObjects, h.largeAllocs, Small(p, h.fls[p][0], h.slabs[p].cls));
    SlabChanged(h.regions, h.slabs, h.larges, h.owner, p, s);
    CountSize(h.allocs, h.liveObjects, h.largeAllocs);
  }

  /** The allocation is an object of class `c` at `addr`. */
  predicate Placed(a: Alloc, c: nat, addr: nat) { a.Small? && a.cls == c && c < CLASSES && Addr(a) == addr }

  lemma CountSize(allocs: seq<Alloc>, liveObjects: seq<int>, largeAllocs: int)
    requires CountsOk(allocs, liveObjects, largeAllocs)
    ensures |liveObjects| == CLASSES
  {
  }

  lemma HeadHasRoom(slabs: Slabs, next: Links, prev: Links, partial: seq<int>, pls: seq<seq<nat>>, c: nat)
    requires ListsOk(slabs, next, prev, partial, pls) && c < CLASSES && |partial| == CLASSES && partial[c] >= 0
    ensures |pls| == CLASSES && pls[c] != [] && pls[c][0] == partial[c] && HasRoom(slabs, partial[c], c)
    ensures partial[c] in next && partial[c] in prev
  {
    assert Chain(next, prev, partial[c], pls[c]);
    ChainAt(next, prev, partial[c], pls[c], 0);
    assert pls[c][0] in pls[c];
  }

  /** A slab's contents changed: where it is did not. */
  lemma SlabChanged(regions: Regions, slabs: Slabs, larges: Larges, o: seq<nat>, p: nat, s: Slab)
    requires RegionsAre(regions, slabs, larges) && TagsOk(o, slabs, larges) && p in slabs
    ensures RegionsAre(regions, slabs[p := s], larges) && TagsOk(o, slabs[p := s], larges)
  {
    hide TaggedAs, LargePages;
  }

  lemma StillRoom(slabs: Slabs, next: Links, prev: Links, partial: seq<int>, pls: seq<seq<nat>>, p: nat, s: Slab)
    requires ListsOk(slabs, next, prev, partial, pls) && p in slabs && s.cls == slabs[p].cls
    requires (s.freeCount > 0 <==> slabs[p].freeCount > 0)
    ensures ListsOk(slabs[p := s], next, prev, partial, pls)
  {
    SameRoom(slabs, slabs[p := s], next, prev, partial, pls);
  }

  lemma Emptied(slabs: Slabs, next: Links, prev: Links, partial: seq<int>, pls: seq<seq<nat>>, c: nat, p: nat, s: Slab)
    requires ListsOk(slabs, next, prev, partial, pls) && c < CLASSES && |partial| == |pls| == CLASSES && partial[c] == p
    requires HasRoom(slabs, p, c) && s.cls == c && s.freeCount == 0
    ensures pls[c] != [] && p in next && p in prev
    ensures ListsOk(slabs[p := s], Set(next, prev[p], next[p])[p := -1], Set(prev, next[p], prev[p])[p := -1],
                    partial[c := if prev[p] >= 0 then partial[c] else next[p]], pls[c := Without(pls[c], 0)])
  {
    HeadHasRoom(slabs, next, prev, partial, pls, c);
    hide Chain;
    Removed(slabs, slabs[p := s], next, prev, partial, pls, c, 0);
  }

  /** Slabs and large allocations stay clear of [p, p + n). */
  ghost predicate Apart(slabs: Slabs, larges: Larges, p: nat, n: nat) {
    && (forall q :: q in slabs ==> p + n <= q || q + SLAB_PAGES <= p)
    && (forall q :: q in larges ==> p + n <= q || q + larges[q].pages <= p)
  }

  lemma AloneOf(slabs: Slabs, larges: Larges, p: nat)
    requires Apart(slabs, larges, p, SLAB_PAGES)
    ensures Alone(slabs, p)
  {
  }

  lemma ListSizes(slabs: Slabs, next: Links, prev: Links, partial: seq<int>, pls: seq<seq<nat>>)
    requires ListsOk(slabs, next, prev, partial, pls)
    ensures |partial| == |pls| == CLASSES
  {
  }

  function NextObj(p: nat, c: nat, k: nat): nat
    requires c < CLASSES
  {
    if k + 1 < Total(c) then ObjAddr(p, c, k + 1) else 0
  }

  lemma WriteOutside(slabs: Slabs, mem: Memory, fls: Freelists, p: nat, c: nat, i: nat, v: nat)
    requires SlabsOk(slabs, mem, fls) && Alone(slabs, p) && p !in slabs && c < CLASSES && i < Total(c)
    ensures SlabsOk(slabs, mem[ObjAddr(p, c, i) := v], fls)
  {
    hide ObjAddr, SlabOk;
    ObjInside(p, c, i);
    forall q | q in slabs ensures SlabOk(slabs[q], mem[ObjAddr(p, c, i) := v], q, fls[q]) {
      WriteIn(slabs, mem, fls, p, ObjAddr(p, c, i), v, q);
    }
  }

  lemma AllThreaded(mem: Memory, p: nat, c: nat)
    requires c < CLASSES && forall k: nat :: k < Total(c) ==> Word(mem, ObjAddr(p, c, k)) == NextObj(p, c, k)
    ensures Threaded(mem, p, c, ObjAddr(p, c, 0), From(0, Total(c)))
  {
    hide ObjAddr, Word, Total;
    var fl := From(0, Total(c));
    forall k | 0 <= k < |fl| ensures Word(mem, ObjAddr(p, c, fl[k])) == Head(p, c, fl[k + 1..]) {
      assert fl[k] == k;
      if k + 1 < |fl| { assert fl[k + 1..][0] == k + 1; }
    }
  }

  lemma NewRegion(regions: Regions, live: set<nat>, slabs: Slabs, larges: Larges, p: nat, n: nat)
    requires RegionsOk(regions, live) && RegionsAre(regions, slabs, larges) && n > 0 && HeapPages.PagesOf(p, n) !! live
    ensures p !in regions && p !in slabs && p !in larges && RegionsOk(regions[p := n], live + HeapPages.PagesOf(p, n))
    ensures Apart(slabs, larges, p, n)
  {
    hide HeapPages.PagesOf, LargePages;
    RegionCame(regions, live, p, n);
  }

  /** Newly mapped pages carry the provisional tag; the others keep theirs. */
  lemma NewTags(o: seq<nat>, slabs: Slabs, larges: Larges, p: nat, n: nat)
    requires TagsOk(o, slabs, larges) && p + n <= |o| && Apart(slabs, larges, p, n)
    ensures TagsOk(HeapPages.Marked(o, p, n), slabs, larges) && TaggedAs(HeapPages.Marked(o, p, n), p, n, LARGE_TAG)
  {
    MarkedElsewhere(o, p, n);
    hide HeapPages.Marked, HeapPages.Cleared;
    TagsFrame(o, HeapPages.Marked(o, p, n), slabs, larges, p, n);
  }

  lemma Retagged(h: Heap, o': seq<nat>, p: nat)
    requires DataOk(h) && |o'| == |h.owner|
    requires forall x :: 0 <= x < |h.owner| && !(p <= x < p + SLAB_PAGES) ==> o'[x] == h.owner[x]
    requires Apart(h.slabs, h.larges, p, SLAB_PAGES)
    ensures DataOk(h.(owner := o'))
  {
    hide SlabsOk, AllocsOk, CountsOk, RegionsAre, TagsOk;
    TagsFrame(h.owner, o', h.slabs, h.larges, p, SLAB_PAGES);
  }

  /** Pages just taken from the page layer. */
  lemma NewPages(h: Heap, live: set<nat>, p: nat, n: nat)
    requires DataOk(h) && RegionsOk(h.regions, live)
    requires n > 0 && p + n <= |h.owner| && HeapPages.PagesOf(p, n) !! live
    ensures RegionsOk(h.regions[p := n], live + HeapPages.PagesOf(p, n)) && p !in h.slabs && p !in h.larges
    ensures Apart(h.slabs, h.larges, p, n)
    ensures DataOk(h.(owner := HeapPages.Marked(h.owner, p, n)))
    ensures TaggedAs(HeapPages.Marked(h.owner, p, n), p, n, LARGE_TAG)
  {
    hide SlabsOk, AllocsOk, CountsOk, TagsOk, HeapPages.PagesOf, HeapPages.Marked, TaggedAs, Apart, RegionsOk;
    NewRegion(h.regions, live, h.slabs, h.larges, p, n);
    NewTags(h.owner, h.slabs, h.larges, p, n);
  }

  /** A new slab, all of it free, in the pages it was given. */
  lemma FreshSlab(h: Heap, p: nat, c: nat)
    requires DataOk(h) && p !in h.slabs
    requires p !in h.larges && c < CLASSES
    requires TaggedAs(h.owner, p, SLAB_PAGES, Tag(p)) && Threaded(h.mem, p, c, ObjAddr(p, c, 0), From(0, Total(c)))
    ensures DataOk(h.(slabs := h.slabs[p := Slab(c, Total(c), ObjAddr(p, c, 0))],
                      fls := h.fls[p := From(0, Total(c))], regions := h.regions[p := SLAB_PAGES]))
  {
    hide AllocsOk, CountsOk, RegionsAre, TagsOk, Threaded, ObjAddr, Total, TaggedAs;
    FreshAllocs(h.allocs, h.slabs, h.fls, h.larges, p, c);
    NewSlabSpace(h.regions, h.slabs, h.larges, h.owner, p, c);
  }

  lemma FreshLists(slabs: Slabs, next: Links, prev: Links, partial: seq<int>, pls: seq<seq<nat>>, p: nat, c: nat)
    requires ListsOk(slabs, next, prev, partial, pls) && p !in slabs && c < CLASSES
    ensures |partial| == |pls| == CLASSES
    ensures ListsOk(slabs[p := Slab(c, Total(c), ObjAddr(p, c, 0))], next[p := partial[c]],
                    Set(prev[p := -1], partial[c], p),
                    partial[c := p as int], pls[c := [p] + pls[c]])
  {
    hide Chain, ObjAddr;
    var s := Slab(c, Total(c), ObjAddr(p, c, 0));
    forall d | 0 <= d < CLASSES ensures p !in pls[d] { assert !HasRoom(slabs, p, d); }
    Pushed(slabs, slabs[p := s], next, prev, partial, pls, c, p);
  }

  lemma FreshAllocs(allocs: seq<Alloc>, slabs: Slabs, fls: Freelists, larges: Larges, p: nat, c: nat)
    requires AllocsOk(allocs, slabs, fls, larges) && p !in slabs && c < CLASSES
    ensures AllocsOk(allocs, slabs[p := Slab(c, Total(c), ObjAddr(p, c, 0))], fls[p := From(0, Total(c))], larges)
  {
    hide ObjAddr;
    var fl := From(0, Total(c));
    forall i: nat | i < Total(c) ensures i in fl { assert fl[i] == i; }
    SlabCame(allocs, slabs, fls, larges, p, Slab(c, Total(c), ObjAddr(p, c, 0)), fl);
  }

  lemma NewSlabSpace(regions: Regions, slabs: Slabs, larges: Larges, o: seq<nat>, p: nat, c: nat)
    requires RegionsAre(regions, slabs, larges) && TagsOk(o, slabs, larges) && p !in slabs && p !in larges
    requires c < CLASSES
    requires TaggedAs(o, p, SLAB_PAGES, Tag(p))
    ensures RegionsAre(regions[p := SLAB_PAGES], slabs[p := Slab(c, Total(c), ObjAddr(p, c, 0))], larges)
    ensures TagsOk(o, slabs[p := Slab(c, Total(c), ObjAddr(p, c, 0))], larges)
  {
    hide ObjAddr, Total, LargePages, TaggedAs;
  }
}
