/** The zaefs driver's state: the disk behind a direct-mapped write-through cache, the two bitmaps
    on it, the inode table and the inodes held in memory (kernel/fs/zaefs.c:45-474, 636-673). */
module ZaefsFs {
  import opened ZaefsBytes
  import opened ZaefsTree
  import opened ZaefsBits

  const CACHE_SLOTS: nat := 64

  /** Where things are on the disk; everything before `dataStart` is metadata. */
  datatype Geometry = Geometry(total: nat, bitmapStart: nat, inodeMapStart: nat, inodeCount: nat, dataStart: nat)

  predicate GeoOk(g: Geometry) {
    && 0 < g.bitmapStart && g.bitmapStart + (g.total + BITS - 1) / BITS <= g.inodeMapStart
    && g.inodeMapStart + (g.inodeCount + BITS - 1) / BITS <= g.dataStart <= g.total < 0x1_0000_0000
    && g.inodeCount > 0
  }

  datatype CacheSlot = CacheSlot(block: nat, valid: bool, data: Block)

  /** An inode some vnode holds. */
  datatype Held = Held(di: Inode, dirty: bool, refs: nat)

  // ---- the parts of the invariant --------------------------------------------------------------

  /** A valid slot holds what is on the disk, and is the slot of its block. */
  predicate CacheOk(slots: seq<CacheSlot>, disk: seq<Block>) {
    |slots| == CACHE_SLOTS && forall k :: 0 <= k < CACHE_SLOTS && slots[k].valid ==>
      slots[k].block < |disk| && slots[k].block % CACHE_SLOTS == k && slots[k].data == disk[slots[k].block]
  }

  /** A block's bit is set exactly when it is metadata or owned; the rest are counted free. */
  ghost predicate BlockBits(g: Geometry, disk: seq<Block>, own: map<nat, Owner>, free: nat) {
    && |disk| == g.total
    && (forall b :: b in own ==> g.dataStart <= b < g.total)
    && (forall b: nat :: b < g.total ==> (BitAt(disk, g.bitmapStart, b) <==> b < g.dataStart || b in own))
    && free + |own| == g.total - g.dataStart
  }

  /** An inode's bit is set exactly when it exists; inode 0 is reserved. */
  ghost predicate InodeBits(g: Geometry, disk: seq<Block>, inos: set<nat>, free: nat) {
    && (forall i :: i in inos ==> 0 < i < g.inodeCount)
    && (forall i: nat :: i < g.inodeCount ==> (BitAt(disk, g.inodeMapStart, i) <==> i == 0 || i in inos))
    && free + |inos| + 1 == g.inodeCount
  }

  /** The inodes: the held copy where there is one, else the one on disk. A held copy that is not
      dirty is on disk, and an inode without names is held. */
  ghost predicate HeldOk(itable: map<nat, Inode>, held: map<nat, Held>, inodes: map<nat, Inode>) {
    && itable.Keys == inodes.Keys && held.Keys <= inodes.Keys
    && (forall i :: i in held ==> held[i].di == inodes[i] && held[i].refs > 0)
    && (forall i :: i in held && !held[i].dirty ==> itable[i] == inodes[i])
    && (forall i :: i in inodes && i !in held ==> itable[i] == inodes[i] && inodes[i].links > 0)
  }

  lemma HeldPut(itable: map<nat, Inode>, held: map<nat, Held>, inodes: map<nat, Inode>, ino: nat, di: Inode)
    requires HeldOk(itable, held, inodes) && ino in held
    ensures HeldOk(itable, held[ino := Held(di, true, held[ino].refs)], inodes[ino := di])
    ensures inodes[ino := di].Keys == inodes.Keys && SameRefs(held, held[ino := Held(di, true, held[ino].refs)])
  {
  }

  lemma HeldFlush(itable: map<nat, Inode>, held: map<nat, Held>, inodes: map<nat, Inode>, ino: nat)
    requires HeldOk(itable, held, inodes) && ino in held
    ensures HeldOk(itable[ino := held[ino].di], held[ino := Held(held[ino].di, false, held[ino].refs)], inodes)
    ensures !held[ino].dirty ==> itable[ino := held[ino].di] == itable
    ensures SameRefs(held, held[ino := Held(held[ino].di, false, held[ino].refs)])
  {
  }

  // ---- bits and ownership ------------------------------------------------------------------------

  predicate SameData(g: Geometry, disk: seq<Block>, disk': seq<Block>) {
    |disk'| == |disk| && forall b :: g.dataStart <= b < |disk| ==> disk'[b] == disk[b]
  }

  lemma MapBlock(g: Geometry, i: nat)
    requires GeoOk(g)
    ensures i < g.total ==> g.bitmapStart + i / BITS < g.inodeMapStart
    ensures i < g.inodeCount ==> g.inodeMapStart + i / BITS < g.dataStart
  {
  }

  /** Metadata blocks did not change: neither did the bitmaps. */
  lemma BitsFrame(g: Geometry, disk: seq<Block>, disk': seq<Block>, own: map<nat, Owner>, free: nat, inos: set<nat>,
                  freeInodes: nat)
    requires GeoOk(g) && BlockBits(g, disk, own, free) && InodeBits(g, disk, inos, freeInodes)
    requires |disk'| == |disk| && forall b :: 0 <= b < g.dataStart ==> disk'[b] == disk[b]
    ensures BlockBits(g, disk', own, free) && InodeBits(g, disk', inos, freeInodes)
  {
    hide BlockBit;
    forall b: nat | b < g.total ensures BitAt(disk', g.bitmapStart, b) == BitAt(disk, g.bitmapStart, b) {
      MapBlock(g, b);
    }
    forall i: nat | i < g.inodeCount ensures BitAt(disk', g.inodeMapStart, i) == BitAt(disk, g.inodeMapStart, i) {
      MapBlock(g, i);
    }
  }

  ghost function Range(lo: nat, hi: nat): set<nat> { if lo >= hi then {} else Range(lo, hi - 1) + {hi - 1} }

  lemma {:induction false} RangeHas(lo: nat, hi: nat)
    ensures forall b: nat :: b in Range(lo, hi) <==> lo <= b < hi
    decreases hi
  {
    if lo < hi { RangeHas(lo, hi - 1); }
  }

  lemma {:induction false} RangeSize(lo: nat, hi: nat)
    requires lo <= hi
    ensures |Range(lo, hi)| == hi - lo
    decreases hi
  {
    if lo < hi {
      RangeSize(lo, hi - 1);
      RangeHas(lo, hi - 1);
    }
  }

  lemma Complement(a: set<nat>, b: set<nat>)
    requires a <= b
    ensures |b - a| == |b| - |a|
  {
    assert b == a + (b - a);
  }

  /** The free count is the number of clear bits. */
  lemma FreeIsClear(g: Geometry, disk: seq<Block>, own: map<nat, Owner>, free: nat)
    requires GeoOk(g) && BlockBits(g, disk, own, free)
    ensures free == |set b: nat | b < g.total && !BitAt(disk, g.bitmapStart, b)|
  {
    hide BitAt, Range;
    var data := Range(g.dataStart, g.total);
    RangeHas(g.dataStart, g.total);
    assert (set b: nat | b < g.total && !BitAt(disk, g.bitmapStart, b)) == data - own.Keys;
    RangeSize(g.dataStart, g.total);
    Complement(own.Keys, data);
  }

  /** Nothing is free exactly when every bit is set. */
  lemma NoneFree(g: Geometry, disk: seq<Block>, own: map<nat, Owner>, free: nat)
    requires GeoOk(g) && BlockBits(g, disk, own, free)
    ensures free == 0 <==> forall b: nat :: b < g.total ==> BitAt(disk, g.bitmapStart, b)
  {
    hide BitAt, BlockBits;
    FreeIsClear(g, disk, own, free);
    var clear := set b: nat | b < g.total && !BitAt(disk, g.bitmapStart, b);
    if b: nat :| b < g.total && !BitAt(disk, g.bitmapStart, b) {
      assert b in clear;
    } else {
      assert clear == {};
    }
  }

  lemma TakeBlock(g: Geometry, disk: seq<Block>, own: map<nat, Owner>, free: nat, b: nat, o: Owner)
    requires GeoOk(g) && BlockBits(g, disk, own, free) && b < g.total && !BitAt(disk, g.bitmapStart, b)
    ensures g.bitmapStart + b / BITS < g.dataStart <= b && b !in own && free > 0
    ensures BlockBits(g, SetBit(disk, g.bitmapStart, b), own[b := o], free - 1)
  {
    hide BitAt, SetBit;
    MapBlock(g, b);
    NoneFree(g, disk, own, free);
    forall c: nat | c < g.total
      ensures BitAt(SetBit(disk, g.bitmapStart, b), g.bitmapStart, c) <==> c < g.dataStart || c in own[b := o]
    {
      SetBitAt(disk, g.bitmapStart, b, c);
    }
    SetBitLength(disk, g.bitmapStart, b);
    assert own[b := o].Keys == own.Keys + {b};
  }

  lemma SetBitLength(disk: seq<Block>, start: nat, i: nat)
    requires start + i / BITS < |disk|
    ensures |SetBit(disk, start, i)| == |disk|
    ensures forall b :: 0 <= b < |disk| && b != start + i / BITS ==> SetBit(disk, start, i)[b] == disk[b]
  {
    hide OrBlock;
  }

  lemma UnsetBitLength(disk: seq<Block>, start: nat, i: nat)
    requires start + i / BITS < |disk|
    ensures |UnsetBit(disk, start, i)| == |disk|
    ensures forall b :: 0 <= b < |disk| && b != start + i / BITS ==> UnsetBit(disk, start, i)[b] == disk[b]
  {
    hide ClearBlock;
  }

  lemma GiveBlock(g: Geometry, disk: seq<Block>, own: map<nat, Owner>, free: nat, b: nat)
    requires GeoOk(g) && BlockBits(g, disk, own, free) && b in own
    ensures g.dataStart <= b < g.total && g.bitmapStart + b / BITS < g.dataStart
    ensures BlockBits(g, UnsetBit(disk, g.bitmapStart, b), own - {b}, free + 1)
  {
    hide BitAt, UnsetBit;
    MapBlock(g, b);
    forall c: nat | c < g.total
      ensures BitAt(UnsetBit(disk, g.bitmapStart, b), g.bitmapStart, c) <==> c < g.dataStart || c in own - {b}
    {
      UnsetBitAt(disk, g.bitmapStart, b, c);
    }
    UnsetBitLength(disk, g.bitmapStart, b);
    assert own.Keys == (own - {b}).Keys + {b};
  }

  /** A block bitmap write leaves the inode bitmap alone. */
  lemma InodeBitsKept(g: Geometry, disk: seq<Block>, disk': seq<Block>, inos: set<nat>, free: nat, c: nat)
    requires GeoOk(g) && InodeBits(g, disk, inos, free) && |disk'| == |disk| == g.total && c < g.inodeMapStart
    requires forall b :: 0 <= b < g.dataStart && b != c ==> disk'[b] == disk[b]
    ensures InodeBits(g, disk', inos, free)
  {
    hide BlockBit;
    forall i: nat | i < g.inodeCount ensures BitAt(disk', g.inodeMapStart, i) == BitAt(disk, g.inodeMapStart, i) {
      MapBlock(g, i);
    }
  }

  /** What a block allocation does to the disk keeps both bitmaps and the owned blocks. */
  lemma AllocBlockBits(g: Geometry, disk: seq<Block>, own: map<nat, Owner>, free: nat, b: nat, o: Owner, inos: set<nat>,
                       freeInodes: nat)
    requires GeoOk(g) && BlockBits(g, disk, own, free) && InodeBits(g, disk, inos, freeInodes)
    requires b < g.total && !BitAt(disk, g.bitmapStart, b) && g.bitmapStart + b / BITS < |disk|
    ensures |SetBit(disk, g.bitmapStart, b)| == |disk| && g.dataStart <= b && b !in own && free > 0 && |ZERO| == BS
    ensures BlockBits(g, SetBit(disk, g.bitmapStart, b)[b := ZERO], own[b := o], free - 1)
    ensures InodeBits(g, SetBit(disk, g.bitmapStart, b)[b := ZERO], inos, freeInodes)
    ensures SameOwned(disk, SetBit(disk, g.bitmapStart, b)[b := ZERO], own)
    ensures IsZero(SetBit(disk, g.bitmapStart, b)[b := ZERO][b])
  {
    hide BitAt, SetBit, IsZero;
    TakeBlock(g, disk, own, free, b, o);
    SetBitLength(disk, g.bitmapStart, b);
    MapBlock(g, b);
    ZeroIsZero();
    var d := SetBit(disk, g.bitmapStart, b);
    InodeBitsKept(g, disk, d, inos, freeInodes, g.bitmapStart + b / BITS);
    hide InodeBits;
    BitsFrame(g, d, d[b := ZERO], own[b := o], free - 1, inos, freeInodes);
  }

  lemma FreeBlockBits(g: Geometry, disk: seq<Block>, own: map<nat, Owner>, free: nat, b: nat, inos: set<nat>,
                      freeInodes: nat)
    requires GeoOk(g) && BlockBits(g, disk, own, free) && InodeBits(g, disk, inos, freeInodes) && b in own
    ensures g.bitmapStart + b / BITS < |disk|
    ensures BlockBits(g, UnsetBit(disk, g.bitmapStart, b), own - {b}, free + 1)
    ensures InodeBits(g, UnsetBit(disk, g.bitmapStart, b), inos, freeInodes)
    ensures SameData(g, disk, UnsetBit(disk, g.bitmapStart, b))
  {
    hide BitAt, UnsetBit;
    GiveBlock(g, disk, own, free, b);
    MapBlock(g, b);
    UnsetBitLength(disk, g.bitmapStart, b);
    InodeBitsKept(g, disk, UnsetBit(disk, g.bitmapStart, b), inos, freeInodes, g.bitmapStart + b / BITS);
  }

  lemma OwnInData(g: Geometry, disk: seq<Block>, own: map<nat, Owner>, free: nat)
    requires BlockBits(g, disk, own, free)
    ensures |disk| == g.total && forall b :: b in own ==> g.dataStart <= b < g.total
  {
  }

  lemma SameSelf(g: Geometry, disk: seq<Block>, own: map<nat, Owner>, b: nat)
    requires b !in own
    ensures SameData(g, disk, disk) && own - {b} == own
  {
  }

  /** And the other way round. */
  lemma BlockBitsKept(g: Geometry, disk: seq<Block>, disk': seq<Block>, own: map<nat, Owner>, free: nat)
    requires GeoOk(g) && BlockBits(g, disk, own, free) && |disk'| == |disk|
    requires forall b :: 0 <= b < g.inodeMapStart ==> disk'[b] == disk[b]
    ensures BlockBits(g, disk', own, free)
  {
    hide BlockBit;
    forall b: nat | b < g.total ensures BitAt(disk', g.bitmapStart, b) == BitAt(disk, g.bitmapStart, b) {
      MapBlock(g, b);
    }
  }

  lemma TakeInode(g: Geometry, disk: seq<Block>, inos: set<nat>, free: nat, i: nat)
    requires GeoOk(g) && |disk| == g.total && InodeBits(g, disk, inos, free) && i < g.inodeCount
    requires !BitAt(disk, g.inodeMapStart, i)
    ensures g.inodeMapStart + i / BITS < g.dataStart && i !in inos && i > 0 && free > 0
    ensures InodeBits(g, SetBit(disk, g.inodeMapStart, i), inos + {i}, free - 1)
  {
    hide BitAt, SetBit;
    MapBlock(g, i);
    InodeRoom(g, inos, i);
    forall c: nat | c < g.inodeCount
      ensures BitAt(SetBit(disk, g.inodeMapStart, i), g.inodeMapStart, c) <==> c == 0 || c in inos + {i}
    {
      SetBitAt(disk, g.inodeMapStart, i, c);
    }
  }

  lemma InodeRoom(g: Geometry, inos: set<nat>, i: nat)
    requires i !in inos && 0 < i < g.inodeCount && forall k :: k in inos ==> 0 < k < g.inodeCount
    ensures |inos| + 1 < g.inodeCount
  {
    hide Range;
    var all := Range(1, g.inodeCount);
    RangeHas(1, g.inodeCount);
    RangeSize(1, g.inodeCount);
    Complement(inos + {i}, all);
  }

  lemma GiveInode(g: Geometry, disk: seq<Block>, inos: set<nat>, free: nat, i: nat)
    requires GeoOk(g) && |disk| == g.total && InodeBits(g, disk, inos, free) && i in inos
    ensures g.inodeMapStart + i / BITS < g.dataStart
    ensures InodeBits(g, UnsetBit(disk, g.inodeMapStart, i), inos - {i}, free + 1)
  {
    hide BitAt, UnsetBit;
    MapBlock(g, i);
    forall c: nat | c < g.inodeCount
      ensures BitAt(UnsetBit(disk, g.inodeMapStart, i), g.inodeMapStart, c) <==> c == 0 || c in inos - {i}
    {
      UnsetBitAt(disk, g.inodeMapStart, i, c);
    }
  }

  // ---- files -----------------------------------------------------------------------------------------

  /** Every file has the bytes, size and links it had. */
  ghost predicate SameFiles(disk: seq<Block>, inodes: map<nat, Inode>, disk': seq<Block>, inodes': map<nat, Inode>) {
    && inodes'.Keys == inodes.Keys
    && (forall j :: j in inodes ==> inodes'[j].size == inodes[j].size && inodes'[j].links == inodes[j].links)
    && (forall j, p: nat :: j in inodes ==> ByteAt(disk', inodes'[j], p) == ByteAt(disk, inodes[j], p))
  }

  predicate SameRefs(held: map<nat, Held>, held': map<nat, Held>) {
    held'.Keys == held.Keys && forall i :: i in held ==> held'[i].refs == held[i].refs
  }

  lemma SameTails(disk: seq<Block>, inodes: map<nat, Inode>, disk': seq<Block>, inodes': map<nat, Inode>)
    requires SameFiles(disk, inodes, disk', inodes') && TailsZero(disk, inodes)
    ensures TailsZero(disk', inodes')
  {
    hide ByteAt;
  }

  lemma SameTrans(d0: seq<Block>, i0: map<nat, Inode>, d1: seq<Block>, i1: map<nat, Inode>, d2: seq<Block>, i2: map<nat,
                  Inode>)
    requires SameFiles(d0, i0, d1, i1) && SameFiles(d1, i1, d2, i2)
    ensures SameFiles(d0, i0, d2, i2)
  {
    hide ByteAt;
  }

  lemma RefsTrans(a: map<nat, Held>, b: map<nat, Held>, c: map<nat, Held>)
    requires SameRefs(a, b) && SameRefs(b, c)
    ensures SameRefs(a, c)
  {
  }

  lemma InodeAt(disk: seq<Block>, di: Inode)
    ensures At(disk, di, Ind) == di.indirect && At(disk, di, DInd) == di.dindirect
  {
  }

  lemma DirectAt(disk: seq<Block>, di: Inode, l: nat)
    requires l < NDIRECT && |di.direct| == NDIRECT
    ensures At(disk, di, Data(l)) == di.direct[l]
  {
  }

  lemma SameFrame(disk: seq<Block>, disk': seq<Block>, inodes: map<nat, Inode>, own: map<nat, Owner>)
    requires TreeOk(disk, inodes, own) && SameOwned(disk, disk', own)
    ensures TreeOk(disk', inodes, own) && SameFiles(disk, inodes, disk', inodes)
    ensures forall j, q :: j in inodes && PosOk(q) ==> At(disk', inodes[j], q) == At(disk, inodes[j], q)
  {
    hide ByteAt, At;
    TreeFrame(disk, disk', inodes, own);
    forall j, p: nat | j in inodes ensures ByteAt(disk', inodes[j], p) == ByteAt(disk, inodes[j], p) {
      BytesFrame(disk, disk', inodes, own, j, p);
    }
  }

  lemma SameInstalled(disk: seq<Block>, inodes: map<nat, Inode>, own: map<nat, Owner>, ino: nat, pos: Pos, b: nat)
    requires CanInstall(disk, inodes, own, ino, pos, b)
    ensures SameFiles(disk, inodes, SetDisk(disk, inodes[ino], pos, b), inodes[ino := SetInode(inodes[ino], pos, b)])
  {
    hide ByteAt, At, SetDisk, HasCell;
    var disk', inodes' := SetDisk(disk, inodes[ino], pos, b), inodes[ino := SetInode(inodes[ino], pos, b)];
    forall j, p: nat | j in inodes ensures ByteAt(disk', inodes'[j], p) == ByteAt(disk, inodes[j], p) {
      InstallBytes(disk, inodes, own, ino, pos, b, j, p);
    }
  }

  /** Allocating and installing a block: the tree, the counts and the files afterwards. */
  lemma Installed(g: Geometry, disk: seq<Block>, d: seq<Block>, inodes: map<nat, Inode>, own: map<nat, Owner>, ino: nat,
                  pos: Pos, b: nat)
    requires TreeOk(disk, inodes, own) && CountOk(inodes, own) && ino in inodes && HasCell(disk, inodes[ino], pos)
    requires At(disk, inodes[ino], pos) == 0 && SameOwned(disk, d, own) && 0 < b < |d| && b !in own
    requires IsZero(d[b]) && b < 0x1_0000_0000
    ensures CanInstall(d, inodes, own, ino, pos, b)
    ensures TreeOk(SetDisk(d, inodes[ino], pos, b), inodes[ino := SetInode(inodes[ino], pos, b)],
                   own[b := Owner(ino, pos)])
    ensures CountOk(inodes[ino := SetInode(inodes[ino], pos, b)], own[b := Owner(ino, pos)])
    ensures SameFiles(disk, inodes, SetDisk(d, inodes[ino], pos, b), inodes[ino := SetInode(inodes[ino], pos, b)])
    ensures At(SetDisk(d, inodes[ino], pos, b), SetInode(inodes[ino], pos, b), pos) == b
    ensures forall q :: PosOk(q) ==> At(d, inodes[ino], q) == At(disk, inodes[ino], q)
  {
    hide At, SameFiles, IsZero, SetDisk, SetInode, BlocksOf;
    SameFrame(disk, d, inodes, own);
    if !InInode(pos) { ParentAt(disk, inodes[ino], pos); }
    assert CanInstall(d, inodes, own, ino, pos, b);
    Install(d, inodes, own, ino, pos, b);
    InstallCount(inodes, own, ino, pos, b);
    SameInstalled(d, inodes, own, ino, pos, b);
    InstallAt(d, inodes, own, ino, pos, b, ino, pos);
    hide TreeOk, CanInstall, CountOk;
    SameTrans(disk, inodes, d, inodes, SetDisk(d, inodes[ino], pos, b), inodes[ino := SetInode(inodes[ino], pos, b)]);
  }

  lemma SameOwnedAt(g: Geometry, disk: seq<Block>, d: seq<Block>, own: map<nat, Owner>, own': map<nat, Owner>,
                    free: nat, idx: nat)
    requires SameOwned(disk, d, own) && idx in own && idx < |disk| && own'.Keys >= own.Keys
    requires BlockBits(g, d, own', free)
    ensures idx < |d| && d[idx] == disk[idx] && g.dataStart <= idx
  {
  }

  lemma DataFrame(g: Geometry, disk: seq<Block>, b: nat, blk: Block, own: map<nat, Owner>, free: nat, inos: set<nat>,
                  freeInodes: nat)
    requires GeoOk(g) && BlockBits(g, disk, own, free) && InodeBits(g, disk, inos, freeInodes)
    requires g.dataStart <= b < |disk|
    ensures BlockBits(g, disk[b := blk], own, free) && InodeBits(g, disk[b := blk], inos, freeInodes)
  {
    hide InodeBits, BitAt;
    BitsFrame(g, disk, disk[b := blk], own, free, inos, freeInodes);
  }

  lemma SetDiskIs(d: seq<Block>, di: Inode, pos: Pos, b: nat, idx: nat)
    requires HasCell(d, di, pos) && !InInode(pos) && b < 0x1_0000_0000 && At(d, di, Parent(pos)) == idx
    ensures SetDisk(d, di, pos, b) == d[idx := Put32(d[idx], 4 * Slot(pos), b)]
  {
    hide At, Put32;
  }

  lemma SameRefl(disk: seq<Block>, inodes: map<nat, Inode>, held: map<nat, Held>)
    ensures SameFiles(disk, inodes, disk, inodes) && SameRefs(held, held)
  {
    hide ByteAt;
  }

  // ---- reading and writing bytes --------------------------------------------------------------------

  /** What a read returns: the part of the file in [pos, pos + len). */
  function Extract(f: seq<Byte>, pos: nat, len: nat): seq<Byte> {
    if pos >= |f| then [] else if pos + len > |f| then f[pos..] else f[pos..pos + len]
  }

  /** What a write makes of a file: longer if need be, with zeros in a gap. */
  function Overwrite(f: seq<Byte>, pos: nat, data: seq<Byte>): (r: seq<Byte>) {
    if pos + |data| <= |f| then f[..pos] + data + f[pos + |data|..]
    else if pos <= |f| then f[..pos] + data
    else f + Zeros(pos - |f|) + data
  }

  /** Read back what was written, what was there before outside it, and zeros in the gap. */
  lemma ReadAfterWrite(f: seq<Byte>, pos: nat, data: seq<Byte>)
    ensures |Overwrite(f, pos, data)| == if pos + |data| > |f| then pos + |data| else |f|
    ensures Extract(Overwrite(f, pos, data), pos, |data|) == data
    ensures forall p :: 0 <= p < |Overwrite(f, pos, data)| && !(pos <= p < pos + |data|)
                        ==> Overwrite(f, pos, data)[p] == if p < |f| then f[p] else 0
  {
  }

  function Zeros(n: nat): seq<Byte> { seq(n, _ => 0) }

  ghost predicate HasBytes(disk: seq<Block>, di: Inode, pos: nat, out: seq<Byte>) {
    forall k :: 0 <= k < |out| ==> out[k] == ByteAt(disk, di, pos + k)
  }

  lemma SameBlock(p: nat, k: nat)
    requires p % BS + k < BS
    ensures (p + k) / BS == p / BS && (p + k) % BS == p % BS + k
  {
  }

  lemma HoleBytes(disk: seq<Block>, di: Inode, pos: nat, out: seq<Byte>, k: nat)
    requires HasBytes(disk, di, pos, out) && (pos + |out|) % BS + k <= BS
    requires (pos + |out|) / BS >= MAX_BLOCKS || At(disk, di, Data((pos + |out|) / BS)) == 0
    ensures HasBytes(disk, di, pos, out + ZERO[..k])
  {
    hide At;
    var next := out + ZERO[..k];
    forall i | 0 <= i < |next| ensures next[i] == ByteAt(disk, di, pos + i) {
      if i >= |out| { SameBlock(pos + |out|, i - |out|); }
    }
  }

  lemma BlockBytes(disk: seq<Block>, di: Inode, pos: nat, out: seq<Byte>, k: nat, b: nat)
    requires HasBytes(disk, di, pos, out) && (pos + |out|) % BS + k <= BS && (pos + |out|) / BS < MAX_BLOCKS
    requires At(disk, di, Data((pos + |out|) / BS)) == b && 0 < b < |disk|
    ensures HasBytes(disk, di, pos, out + disk[b][(pos + |out|) % BS..(pos + |out|) % BS + k])
  {
    hide At;
    var off := (pos + |out|) % BS;
    var next := out + disk[b][off..off + k];
    forall i | 0 <= i < |next| ensures next[i] == ByteAt(disk, di, pos + i) {
      if i >= |out| { SameBlock(pos + |out|, i - |out|); }
    }
  }

  lemma ExtractIs(disk: seq<Block>, di: Inode, pos: nat, len: nat, out: seq<Byte>)
    requires pos < di.size && HasBytes(disk, di, pos, out)
    requires |out| == if pos + len > di.size then di.size - pos else len
    ensures out == Extract(File(disk, di), pos, len)
  {
    hide ByteAt;
    var f := File(disk, di);
    assert forall p :: 0 <= p < di.size ==> f[p] == ByteAt(disk, di, p);
    forall k | 0 <= k < |out| ensures out[k] == f[pos + k] {}
  }

  lemma Owned2(disk: seq<Block>, inodes: map<nat, Inode>, own: map<nat, Owner>, ino: nat, l: nat)
    requires TreeOk(disk, inodes, own) && ino in inodes
    ensures l < MAX_BLOCKS ==> At(disk, inodes[ino], Data(l)) < |disk| || At(disk, inodes[ino], Data(l)) == 0
  {
    hide At;
    if l < MAX_BLOCKS { Owned(disk, inodes, own, ino, Data(l)); }
  }

  function Done(r: int): nat { if r > 0 then r else 0 }

  function WithMeta(di: Inode, links: nat, size: nat): Inode {
    Inode(links, size, di.nblocks, di.direct, di.indirect, di.dindirect)
  }

  lemma MetaAt(disk: seq<Block>, di: Inode, links: nat, size: nat, pos: Pos)
    ensures At(disk, WithMeta(di, links, size), pos) == At(disk, di, pos)
  {
    hide Ptr;
  }

  lemma MetaBytes(disk: seq<Block>, di: Inode, links: nat, size: nat, p: nat)
    ensures ByteAt(disk, WithMeta(di, links, size), p) == ByteAt(disk, di, p)
  {
    hide At;
    MetaAt(disk, di, links, size, Data(p / BS));
  }

  lemma MetaTree(disk: seq<Block>, inodes: map<nat, Inode>, own: map<nat, Owner>, ino: nat, links: nat, size: nat)
    requires TreeOk(disk, inodes, own) && CountOk(inodes, own) && ino in inodes
    ensures TreeOk(disk, inodes[ino := WithMeta(inodes[ino], links, size)], own)
    ensures CountOk(inodes[ino := WithMeta(inodes[ino], links, size)], own)
  {
    hide At, BlocksOf;
    forall pos ensures At(disk, WithMeta(inodes[ino], links, size), pos) == At(disk, inodes[ino], pos) {
      MetaAt(disk, inodes[ino], links, size, pos);
    }
  }

  /** `blk` with `chunk` in place of the bytes from `off` on. */
  function Patch(blk: Block, off: nat, chunk: seq<Byte>): Block
    requires off + |chunk| <= BS
  {
    blk[..off] + chunk + blk[off + |chunk|..]
  }

  /** Bytes [pos, pos + |data|) of one file became `data`; all else is as it was, sizes included. */
  ghost predicate Wrote(d0: seq<Block>, i0: map<nat, Inode>, d: seq<Block>, i: map<nat, Inode>, ino: nat, pos: nat,
                        data: seq<Byte>) {
    && i.Keys == i0.Keys
    && (forall j :: j in i0 ==> i[j].size == i0[j].size && i[j].links == i0[j].links)
    && (forall j, p: nat :: j in i0 ==>
          ByteAt(d, i[j], p) == if j == ino && pos <= p < pos + |data| then data[p - pos] else ByteAt(d0, i0[j], p))
  }

  /** Every other file has the contents and links it had. */
  ghost predicate Others(d0: seq<Block>, i0: map<nat, Inode>, d: seq<Block>, i: map<nat, Inode>, ino: nat) {
    && i.Keys == i0.Keys
    && forall j :: j in i0 && j != ino ==> i[j].links == i0[j].links && File(d, i[j]) == File(d0, i0[j])
  }

  lemma WroteNothing(d0: seq<Block>, i0: map<nat, Inode>, d: seq<Block>, i: map<nat, Inode>, ino: nat, pos: nat)
    requires SameFiles(d0, i0, d, i)
    ensures Wrote(d0, i0, d, i, ino, pos, [])
  {
    hide ByteAt;
  }

  lemma WroteRefl(d: seq<Block>, i: map<nat, Inode>, held: map<nat, Held>, ino: nat, pos: nat)
    ensures Wrote(d, i, d, i, ino, pos, []) && SameRefs(held, held)
  {
    hide ByteAt;
  }

  lemma WroteTrans(d0: seq<Block>, i0: map<nat, Inode>, d1: seq<Block>, i1: map<nat, Inode>, d2: seq<Block>,
                   i2: map<nat, Inode>,
                   ino: nat, pos: nat, a: seq<Byte>, b: seq<Byte>)
    requires Wrote(d0, i0, d1, i1, ino, pos, a) && Wrote(d1, i1, d2, i2, ino, pos + |a|, b)
    ensures Wrote(d0, i0, d2, i2, ino, pos, a + b)
  {
    hide ByteAt;
    var ab := a + b;
    forall j, p: nat | j in i0
      ensures ByteAt(d2, i2[j], p) == if j == ino && pos <= p < pos + |ab| then ab[p - pos] else ByteAt(d0, i0[j], p)
    {
      assert j in i1;
      assert ByteAt(d2, i2[j], p)
          == if j == ino && pos + |a| <= p < pos + |a| + |b| then b[p - pos - |a|] else ByteAt(d1, i1[j], p);
    }
  }

  /** Storing the patched block writes the chunk, whatever was in it if the chunk fills it. */
  lemma WroteStore(d0: seq<Block>, i0: map<nat, Inode>, d: seq<Block>, i: map<nat, Inode>, own: map<nat, Owner>,
                   ino: nat, p: nat,
                   blk: Block, chunk: seq<Byte>)
    requires Wrote(d0, i0, d, i, ino, p, []) && TreeOk(d, i, own) && ino in i && p / BS < MAX_BLOCKS
    requires p % BS + |chunk| <= BS
    requires 0 < At(d, i[ino], Data(p / BS)) < |d|
    requires |chunk| == BS || blk == d[At(d, i[ino], Data(p / BS))]
    ensures Wrote(d0, i0, d[At(d, i[ino], Data(p / BS)) := Patch(blk, p % BS, chunk)], i, ino, p, chunk)
  {
    hide At, TreeOk;
    var b := At(d, i[ino], Data(p / BS));
    var d' := d[b := Patch(blk, p % BS, chunk)];
    forall j, q: nat | j in i0
      ensures ByteAt(d', i[j], q) == if j == ino && p <= q < p + |chunk| then chunk[q - p] else ByteAt(d0, i0[j], q)
    {
      StoreDataBytes(d, i, own, ino, p / BS, Patch(blk, p % BS, chunk), j, q);
      assert ByteAt(d, i[j], q) == ByteAt(d0, i0[j], q);
      PatchedByte(blk, p, chunk, q);
      assert j == ino && q / BS == p / BS ==> ByteAt(d, i[j], q) == d[b][q % BS];
    }
  }

  lemma PatchedByte(blk: Block, p: nat, chunk: seq<Byte>, q: nat)
    requires p % BS + |chunk| <= BS
    ensures p <= q < p + |chunk| ==> q / BS == p / BS && Patch(blk, p % BS, chunk)[q % BS] == chunk[q - p]
    ensures q / BS == p / BS && !(p <= q < p + |chunk|) ==>
              |chunk| < BS && Patch(blk, p % BS, chunk)[q % BS] == blk[q % BS]
  {
    if p <= q < p + |chunk| { SameBlock(p, q - p); }
  }

  function Larger(a: nat, b: nat): nat { if a > b then a else b }

  /** Once the size covers what was written, the file is overwritten and zero past its end. */
  lemma WroteFile(d0: seq<Block>, i0: map<nat, Inode>, d: seq<Block>, i: map<nat, Inode>, ino: nat, pos: nat,
                  data: seq<Byte>)
    requires Wrote(d0, i0, d, i, ino, pos, data) && ino in i && TailsZero(d0, i0)
    ensures TailsZero(d, i[ino := WithMeta(i[ino], i[ino].links, Larger(pos + |data|, i[ino].size))])
    ensures Others(d0, i0, d, i[ino := WithMeta(i[ino], i[ino].links, Larger(pos + |data|, i[ino].size))], ino)
    ensures File(d, WithMeta(i[ino], i[ino].links, Larger(pos + |data|, i[ino].size)))
            == Overwrite(File(d0, i0[ino]), pos, data)
    ensures i[ino].links == i0[ino].links
  {
    hide ByteAt, WithMeta;
    var size := if pos + |data| > i[ino].size then pos + |data| else i[ino].size;
    var i' := i[ino := WithMeta(i[ino], i[ino].links, size)];
    MetaIs(i[ino], i[ino].links, size);
    forall p: nat ensures ByteAt(d, i'[ino], p) == ByteAt(d, i[ino], p) { MetaBytes(d, i[ino], i[ino].links, size, p); }
    var f, f0 := File(d, i'[ino]), Overwrite(File(d0, i0[ino]), pos, data);
    forall p | 0 <= p < size ensures f[p] == f0[p] {
      assert f[p] == ByteAt(d, i[ino], p);
    }
    assert f == f0;
    forall j | j in i0 && j != ino ensures File(d, i[j]) == File(d0, i0[j]) {
      var a, b := File(d, i[j]), File(d0, i0[j]);
      forall p | 0 <= p < |a| ensures a[p] == b[p] { assert ByteAt(d, i[j], p) == ByteAt(d0, i0[j], p); }
    }
  }

  lemma MetaIs(di: Inode, links: nat, size: nat)
    ensures WithMeta(di, links, size).size == size && WithMeta(di, links, size).links == links
    ensures WithMeta(di, links, di.size) == di.(links := links)
  {
  }

  // ---- the ranks of the freeing loops ---------------------------------------------------------------

  lemma SameDataRefl(g: Geometry, a: seq<Block>)
    ensures SameData(g, a, a)
  {
  }

  lemma SameDataTrans(g: Geometry, a: seq<Block>, b: seq<Block>, c: seq<Block>)
    requires SameData(g, a, b) && SameData(g, b, c)
    ensures SameData(g, a, c)
  {
  }

  function MidRank(i: nat): nat { NDIRECT + PTRS + 1 + i * (PTRS + 1) }

  lemma MidRanks(i: nat, k: nat)
    requires i < PTRS && k < PTRS
    ensures PosOk(Data(NDIRECT + PTRS + i * PTRS + k)) && Rank(Data(NDIRECT + PTRS + i * PTRS + k)) == MidRank(i) + k
    ensures Rank(Mid(i)) == MidRank(i) + PTRS && MidRank(i + 1) == MidRank(i) + PTRS + 1
    ensures Parent(Data(NDIRECT + PTRS + i * PTRS + k)) == Mid(i) && Slot(Data(NDIRECT + PTRS + i * PTRS + k)) == k
  {
    assert (i * PTRS + k) / PTRS == i && (i * PTRS + k) % PTRS == k;
  }

  lemma NoIndirect(disk: seq<Block>, inodes: map<nat, Inode>, own: map<nat, Owner>, ino: nat)
    requires TreeOk(disk, inodes, own) && ino in inodes && inodes[ino].indirect == 0
    ensures Left(own, ino, NDIRECT + PTRS + 1) == Left(own, ino, NDIRECT)
  {
    hide Left, TreeOk;
    forall pos | PosOk(pos) && NDIRECT <= Rank(pos) < NDIRECT + PTRS + 1 ensures At(disk, inodes[ino], pos) == 0 {
      RankLow(pos);
      InodeAt(disk, inodes[ino]);
      if pos != Ind { ParentAt(disk, inodes[ino], pos); }
    }
    LeftSkip(disk, inodes, own, ino, NDIRECT, NDIRECT + PTRS + 1);
  }

  lemma RankLow(pos: Pos)
    requires PosOk(pos) && NDIRECT <= Rank(pos) < NDIRECT + PTRS + 1
    ensures pos == Ind || (!InInode(pos) && Parent(pos) == Ind)
  {
  }

  lemma NoMid(disk: seq<Block>, inodes: map<nat, Inode>, own: map<nat, Owner>, ino: nat, i: nat)
    requires TreeOk(disk, inodes, own) && ino in inodes && i < PTRS && At(disk, inodes[ino], Mid(i)) == 0
    ensures Left(own, ino, MidRank(i + 1)) == Left(own, ino, MidRank(i))
  {
    hide Left, TreeOk, At;
    forall pos | PosOk(pos) && MidRank(i) <= Rank(pos) < MidRank(i + 1) ensures At(disk, inodes[ino], pos) == 0 {
      RankMid(pos, i);
      if pos != Mid(i) { ParentAt(disk, inodes[ino], pos); }
    }
    LeftSkip(disk, inodes, own, ino, MidRank(i), MidRank(i + 1));
  }

  lemma RankMid(pos: Pos, i: nat)
    requires PosOk(pos) && i < PTRS && MidRank(i) <= Rank(pos) < MidRank(i + 1)
    ensures pos == Mid(i) || (!InInode(pos) && Parent(pos) == Mid(i))
  {
    RankForm(pos);
    DivModOf(i, Rank(pos) - MidRank(i));
  }

  lemma NoDouble(disk: seq<Block>, inodes: map<nat, Inode>, own: map<nat, Owner>, ino: nat)
    requires TreeOk(disk, inodes, own) && ino in inodes && inodes[ino].dindirect == 0
    ensures Left(own, ino, LAST_RANK) == Left(own, ino, NDIRECT + PTRS + 1)
  {
    hide Left, TreeOk;
    forall pos | PosOk(pos) && NDIRECT + PTRS + 1 <= Rank(pos) < LAST_RANK ensures At(disk, inodes[ino], pos) == 0 {
      assert pos.DInd? || pos.Mid? || (pos.Data? && pos.l >= NDIRECT + PTRS);
      if pos.Data? { ParentAt(disk, inodes[ino], pos); }
      hide Rank;
    }
    LeftSkip(disk, inodes, own, ino, NDIRECT + PTRS + 1, LAST_RANK);
  }

  /** The state after all blocks of `ino` are freed. */
  lemma FreedFs(g: Geometry, d0: seq<Block>, disk: seq<Block>, inodes: map<nat, Inode>, own: map<nat, Owner>, ino: nat)
    requires TreeOk(d0, inodes, own) && CountOk(inodes, own) && TailsZero(d0, inodes) && SameData(g, d0, disk)
    requires ino in inodes
    requires forall b :: b in own ==> g.dataStart <= b < g.total
    ensures TreeOk(disk, inodes[ino := Cleared(inodes[ino])], Left(own, ino, LAST_RANK))
    ensures CountOk(inodes[ino := Cleared(inodes[ino])], Left(own, ino, LAST_RANK))
    ensures TailsZero(disk, inodes[ino := Cleared(inodes[ino])])
    ensures Others(d0, inodes, disk, inodes[ino := Cleared(inodes[ino])], ino)
    ensures Left(own, ino, LAST_RANK).Keys == own.Keys - BlocksOf(own, ino)
    ensures BlocksOf(Left(own, ino, LAST_RANK), ino) == {}
  {
    hide At, Left, ByteAt, Cleared, BlocksOf, CountOk;
    SameFrame(d0, disk, inodes, own);
    FreedAll(disk, inodes, own, ino);
    hide TreeOk;
    var inodes' := inodes[ino := Cleared(inodes[ino])];
    forall p: nat ensures ByteAt(disk, inodes'[ino], p) == 0 { ClearedByte(disk, inodes[ino], p); }
    forall j | j in inodes && j != ino ensures File(disk, inodes[j]) == File(d0, inodes[j]) {
      var a, b := File(disk, inodes[j]), File(d0, inodes[j]);
      forall p | 0 <= p < |a| ensures a[p] == b[p] { assert ByteAt(disk, inodes[j], p) == ByteAt(d0, inodes[j], p); }
    }
  }

  lemma ClearedByte(disk: seq<Block>, di: Inode, p: nat)
    ensures ByteAt(disk, Cleared(di), p) == 0
  {
    hide At, Cleared;
    ClearedAt(disk, di, Data(p / BS));
  }

  lemma OthersRefl(disk: seq<Block>, inodes: map<nat, Inode>, held: map<nat, Held>, ino: nat)
    ensures Others(disk, inodes, disk, inodes, ino) && SameRefs(held, held)
  {
    hide ByteAt;
  }

  /** Growing a file exposes zeros and nothing else. */
  lemma GrownFile(disk: seq<Block>, inodes: map<nat, Inode>, ino: nat, size: nat)
    requires TailsZero(disk, inodes) && ino in inodes && size >= inodes[ino].size
    ensures TailsZero(disk, inodes[ino := WithMeta(inodes[ino], inodes[ino].links, size)])
    ensures Others(disk, inodes, disk, inodes[ino := WithMeta(inodes[ino], inodes[ino].links, size)], ino)
    ensures File(disk, WithMeta(inodes[ino], inodes[ino].links, size))
            == File(disk, inodes[ino]) + Zeros(size - inodes[ino].size)
  {
    hide ByteAt, WithMeta;
    MetaIs(inodes[ino], inodes[ino].links, size);
    forall p: nat
      ensures ByteAt(disk, WithMeta(inodes[ino], inodes[ino].links, size), p) == ByteAt(disk, inodes[ino], p)
    {
      MetaBytes(disk, inodes[ino], inodes[ino].links, size, p);
    }
  }

  function NewInode(): Inode { Inode(1, 0, 0, seq(NDIRECT, _ => 0), 0, 0) }

  /** Every file there was is still there, with the same contents. */
  ghost predicate Kept(d0: seq<Block>, i0: map<nat, Inode>, d: seq<Block>, i: map<nat, Inode>) {
    forall j :: j in i0 ==> j in i && i[j] == i0[j] && File(d, i[j]) == File(d0, i0[j])
  }

  lemma KeptRefl(disk: seq<Block>, inodes: map<nat, Inode>)
    ensures Kept(disk, inodes, disk, inodes)
  {
    hide ByteAt;
  }

  lemma NoInodeFree(g: Geometry, disk: seq<Block>, inos: set<nat>, free: nat)
    requires GeoOk(g) && InodeBits(g, disk, inos, free)
    ensures free == 0 <==> forall i: nat :: i < g.inodeCount ==> BitAt(disk, g.inodeMapStart, i)
    ensures BitAt(disk, g.inodeMapStart, 0)
  {
    hide BitAt;
    if i: nat :| i < g.inodeCount && !BitAt(disk, g.inodeMapStart, i) {
      InodeRoom(g, inos, i);
    } else {
      AllInodes(g, disk, inos);
    }
  }

  lemma AllInodes(g: Geometry, disk: seq<Block>, inos: set<nat>)
    requires g.inodeCount > 0 && forall i :: i in inos ==> 0 < i < g.inodeCount
    requires forall i: nat :: 0 < i < g.inodeCount ==> i in inos
    ensures |inos| + 1 == g.inodeCount
  {
    hide Range;
    RangeHas(1, g.inodeCount);
    RangeSize(1, g.inodeCount);
    assert inos == Range(1, g.inodeCount);
  }

  /** The state after an inode is allocated and written. */
  lemma AllocInodeFs(g: Geometry, disk: seq<Block>, inodes: map<nat, Inode>, own: map<nat, Owner>, free: nat,
                     freeInodes: nat, ino: nat,
                     itable: map<nat, Inode>, held: map<nat, Held>)
    requires GeoOk(g) && BlockBits(g, disk, own, free) && InodeBits(g, disk, inodes.Keys, freeInodes)
    requires TreeOk(disk, inodes, own) && CountOk(inodes, own) && TailsZero(disk, inodes)
    requires HeldOk(itable, held, inodes)
    requires ino < g.inodeCount && !BitAt(disk, g.inodeMapStart, ino) && g.inodeMapStart + ino / BITS < |disk|
    ensures ino > 0 && ino !in inodes && freeInodes > 0
    ensures BlockBits(g, SetBit(disk, g.inodeMapStart, ino), own, free)
    ensures InodeBits(g, SetBit(disk, g.inodeMapStart, ino), inodes[ino := NewInode()].Keys, freeInodes - 1)
    ensures TreeOk(SetBit(disk, g.inodeMapStart, ino), inodes[ino := NewInode()], own)
    ensures CountOk(inodes[ino := NewInode()], own)
    ensures TailsZero(SetBit(disk, g.inodeMapStart, ino), inodes[ino := NewInode()])
    ensures HeldOk(itable[ino := NewInode()], held, inodes[ino := NewInode()])
    ensures Kept(disk, inodes, SetBit(disk, g.inodeMapStart, ino), inodes[ino := NewInode()])
  {
    hide BitAt, SetBit, At, ByteAt, IsZero, CountOk, TailsZero, HeldOk, Kept, TreeOk;
    OwnInData(g, disk, own, free);
    hide BlockBits;
    TakeInode(g, disk, inodes.Keys, freeInodes, ino);
    assert inodes[ino := NewInode()].Keys == inodes.Keys + {ino};
    SetBitLength(disk, g.inodeMapStart, ino);
    var d := SetBit(disk, g.inodeMapStart, ino);
    BlockBitsKept(g, disk, d, own, free);
    SameFrame(disk, d, inodes, own);
    SameTails(disk, inodes, d, inodes);
    NewInodeTree(d, inodes, own, ino);
    NewInodeHeld(itable, held, inodes, ino);
    NewInodeKept(disk, d, inodes, ino);
  }

  lemma NewInodeTree(disk: seq<Block>, inodes: map<nat, Inode>, own: map<nat, Owner>, ino: nat)
    requires TreeOk(disk, inodes, own) && CountOk(inodes, own) && TailsZero(disk, inodes) && ino !in inodes
    ensures TreeOk(disk, inodes[ino := NewInode()], own) && CountOk(inodes[ino := NewInode()], own)
    ensures TailsZero(disk, inodes[ino := NewInode()])
  {
    hide At, ByteAt;
    var di := NewInode();
    forall pos ensures At(disk, di, pos) == 0 { NewInodeAt(disk, pos); }
    forall p: nat ensures ByteAt(disk, di, p) == 0 { NewInodeByte(disk, p); }
    assert BlocksOf(own, ino) == {};
  }

  lemma NewInodeAt(disk: seq<Block>, pos: Pos)
    ensures At(disk, NewInode(), pos) == 0
  {
  }

  lemma NewInodeIs()
    ensures NewInode().links == 1 && NewInode().size == 0
  {
  }

  lemma NewInodeByte(disk: seq<Block>, p: nat)
    ensures ByteAt(disk, NewInode(), p) == 0
  {
    hide At, NewInode;
    NewInodeAt(disk, Data(p / BS));
  }

  lemma NewInodeHeld(itable: map<nat, Inode>, held: map<nat, Held>, inodes: map<nat, Inode>, ino: nat)
    requires HeldOk(itable, held, inodes) && ino !in inodes
    ensures HeldOk(itable[ino := NewInode()], held, inodes[ino := NewInode()])
  {
  }

  lemma NewInodeKept(disk: seq<Block>, d: seq<Block>, inodes: map<nat, Inode>, ino: nat)
    requires SameFiles(disk, inodes, d, inodes) && ino !in inodes
    ensures Kept(disk, inodes, d, inodes[ino := NewInode()])
  {
    hide ByteAt;
  }

  // ---- names and references --------------------------------------------------------------------------

  /** The last reference to an inode without names is going. */
  predicate Dies(held: map<nat, Held>, ino: nat)
    requires ino in held
  {
    held[ino].refs == 1 && held[ino].di.links == 0
  }

  lemma RelinkedTails(disk: seq<Block>, inodes: map<nat, Inode>, ino: nat, links: nat)
    requires TailsZero(disk, inodes) && ino in inodes
    ensures TailsZero(disk, inodes[ino := WithMeta(inodes[ino], links, inodes[ino].size)])
  {
    hide ByteAt, WithMeta;
    MetaIs(inodes[ino], links, inodes[ino].size);
    forall p: nat
      ensures ByteAt(disk, WithMeta(inodes[ino], links, inodes[ino].size), p) == ByteAt(disk, inodes[ino], p)
    {
      MetaBytes(disk, inodes[ino], links, inodes[ino].size, p);
    }
  }

  lemma SameKey(inodes: map<nat, Inode>, ino: nat)
    requires ino in inodes
    ensures inodes[ino := inodes[ino]] == inodes
  {
  }

  lemma HeldRefs(itable: map<nat, Inode>, held: map<nat, Held>, inodes: map<nat, Inode>, ino: nat)
    requires HeldOk(itable, held, inodes) && ino in held
    ensures held[ino].refs > 0
  {
  }

  lemma TakeRef(itable: map<nat, Inode>, held: map<nat, Held>, inodes: map<nat, Inode>, ino: nat)
    requires HeldOk(itable, held, inodes) && ino in inodes
    ensures ino in itable
    ensures ino in held ==> held[ino].di == inodes[ino]
    ensures ino in held ==>
              HeldOk(itable, held[ino := Held(held[ino].di, held[ino].dirty, held[ino].refs + 1)], inodes)
    ensures ino !in held ==>
              itable[ino] == inodes[ino] && HeldOk(itable, held[ino := Held(itable[ino], false, 1)], inodes)
  {
  }

  lemma DropRef(itable: map<nat, Inode>, held: map<nat, Held>, inodes: map<nat, Inode>, ino: nat)
    requires HeldOk(itable, held, inodes) && ino in held && held[ino].refs > 1
    ensures HeldOk(itable, held[ino := Held(held[ino].di, held[ino].dirty, held[ino].refs - 1)], inodes)
  {
  }

  lemma DropHeld(itable: map<nat, Inode>, held: map<nat, Held>, inodes: map<nat, Inode>, ino: nat)
    requires HeldOk(itable, held, inodes) && ino in held && held[ino].di.links > 0
    ensures HeldOk(itable[ino := held[ino].di], held - {ino}, inodes)
    ensures !held[ino].dirty ==> HeldOk(itable, held - {ino}, inodes)
  {
  }

  /** The state after an emptied inode is freed. */
  lemma FreeInodeFs(g: Geometry, disk: seq<Block>, inodes: map<nat, Inode>, own: map<nat, Owner>, free: nat,
                    freeInodes: nat, ino: nat,
                    itable: map<nat, Inode>, held: map<nat, Held>)
    requires GeoOk(g) && BlockBits(g, disk, own, free) && InodeBits(g, disk, inodes.Keys, freeInodes)
    requires TreeOk(disk, inodes, own) && CountOk(inodes, own) && TailsZero(disk, inodes)
    requires HeldOk(itable, held, inodes)
    requires ino in held && ino in inodes && BlocksOf(own, ino) == {}
    ensures g.inodeMapStart + ino / BITS < |disk|
    ensures BlockBits(g, UnsetBit(disk, g.inodeMapStart, ino), own, free)
    ensures InodeBits(g, UnsetBit(disk, g.inodeMapStart, ino), (inodes - {ino}).Keys, freeInodes + 1)
    ensures TreeOk(UnsetBit(disk, g.inodeMapStart, ino), inodes - {ino}, own) && CountOk(inodes - {ino}, own)
    ensures TailsZero(UnsetBit(disk, g.inodeMapStart, ino), inodes - {ino})
    ensures HeldOk(itable - {ino}, held - {ino}, inodes - {ino})
    ensures SameFiles(disk, inodes, UnsetBit(disk, g.inodeMapStart, ino), inodes)
  {
    hide BitAt, UnsetBit, At, ByteAt, IsZero, CountOk, TailsZero, HeldOk, TreeOk, SameFiles, BlocksOf;
    OwnInData(g, disk, own, free);
    hide BlockBits;
    GiveInode(g, disk, inodes.Keys, freeInodes, ino);
    assert (inodes - {ino}).Keys == inodes.Keys - {ino};
    UnsetBitLength(disk, g.inodeMapStart, ino);
    var d := UnsetBit(disk, g.inodeMapStart, ino);
    BlockBitsKept(g, disk, d, own, free);
    SameFrame(disk, d, inodes, own);
    SameTails(disk, inodes, d, inodes);
    GoneTree(d, inodes, own, ino);
    GoneHeld(itable, held, inodes, ino);
  }

  lemma GoneOwners(own: map<nat, Owner>, ino: nat, b: nat)
    requires BlocksOf(own, ino) == {} && b in own
    ensures own[b].ino != ino
  {
    assert b !in BlocksOf(own, ino);
  }

  lemma GoneTree(disk: seq<Block>, inodes: map<nat, Inode>, own: map<nat, Owner>, ino: nat)
    requires TreeOk(disk, inodes, own) && CountOk(inodes, own) && TailsZero(disk, inodes) && BlocksOf(own, ino) == {}
    ensures TreeOk(disk, inodes - {ino}, own) && CountOk(inodes - {ino}, own) && TailsZero(disk, inodes - {ino})
  {
    hide At, ByteAt, BlocksOf;
    forall b | b in own ensures own[b].ino != ino { GoneOwners(own, ino, b); }
  }

  lemma GoneHeld(itable: map<nat, Inode>, held: map<nat, Held>, inodes: map<nat, Inode>, ino: nat)
    requires HeldOk(itable, held, inodes) && ino in held
    ensures HeldOk(itable - {ino}, held - {ino}, inodes - {ino}) && (held - {ino}).Keys == held.Keys - {ino}
  {
  }

  lemma OthersGone(d0: seq<Block>, i0: map<nat, Inode>, d1: seq<Block>, i1: map<nat, Inode>, d2: seq<Block>, ino: nat)
    requires Others(d0, i0, d1, i1, ino) && ino in i0 && SameFiles(d1, i1, d2, i1)
    ensures Others(d0, i0, d2, (i1 - {ino})[ino := i0[ino]], ino)
  {
    hide ByteAt;
    forall j | j in i0 && j != ino ensures File(d2, i1[j]) == File(d0, i0[j]) {
      var a, b := File(d2, i1[j]), File(d1, i1[j]);
      forall p | 0 <= p < |a| ensures a[p] == b[p] { assert ByteAt(d2, i1[j], p) == ByteAt(d1, i1[j], p); }
      assert a == b;
    }
  }

  function NoSlots(): (s: seq<CacheSlot>)
    ensures |s| == CACHE_SLOTS && forall k :: 0 <= k < |s| ==> !s[k].valid
  {
    seq(CACHE_SLOTS, _ => CacheSlot(0, false, ZERO))
  }

  lemma NoneCached(disk: seq<Block>)
    ensures CacheOk(NoSlots(), disk)
  {
  }

  lemma NoneHeld(itable: map<nat, Inode>)
    requires forall i :: i in itable ==> itable[i].links > 0
    ensures HeldOk(itable, map[], itable)
  {
  }

  // ---- the driver --------------------------------------------------------------------------------------

  class Zaefs {
    const geo: Geometry
    /** The device, the cache in front of it, and the superblock's counters and search hints. */
    var disk: seq<Block>
    var slots: seq<CacheSlot>
    var freeBlocks: nat
    var freeInodes: nat
    var blockHint: nat
    var inodeHint: nat
    /** The inode table on disk, and the inodes in memory. */
    var itable: map<nat, Inode>
    var held: map<nat, Held>
    /** Which position of which inode each used data block is at; the inodes as they now are. */
    ghost var own: map<nat, Owner>
    ghost var inodes: map<nat, Inode>

    ghost predicate Stored()
      reads this`disk, this`slots, this`freeBlocks, this`freeInodes, this`own, this`inodes
    {
      && GeoOk(geo) && CacheOk(slots, disk) && BlockBits(geo, disk, own, freeBlocks)
      && InodeBits(geo, disk, inodes.Keys, freeInodes)
    }

    /** Everything but that files are zero past their size. */
    ghost predicate Core()
      reads this
    {
      Stored() && TreeOk(disk, inodes, own) && CountOk(inodes, own) && HeldOk(itable, held, inodes)
    }

    ghost predicate Valid()
      reads this
    {
      Core() && TailsZero(disk, inodes)
    }

    /** Mount a disk with the inodes `itable` and the blocks `own` in use, of which none is held. */
    constructor (geo: Geometry, disk: seq<Block>, freeBlocks: nat, freeInodes: nat, itable: map<nat, Inode>,
                 ghost own: map<nat, Owner>)
      requires GeoOk(geo) && BlockBits(geo, disk, own, freeBlocks) && InodeBits(geo, disk, itable.Keys, freeInodes)
      requires TreeOk(disk, itable, own) && CountOk(itable, own) && TailsZero(disk, itable)
      requires forall i :: i in itable ==> itable[i].links > 0
      ensures Valid() && this.geo == geo && this.disk == disk && inodes == itable && this.own == own && held == map[]
    {
      hide BlockBits, InodeBits, GeoOk, TreeOk, CountOk, TailsZero, CacheOk, HeldOk, NoSlots;
      this.geo, this.disk := geo, disk;
      slots := NoSlots();
      this.freeBlocks, this.freeInodes := freeBlocks, freeInodes;
      blockHint, inodeHint := 0, 0;
      this.itable, held, this.own, inodes := itable, map[], own, itable;
      new;
      NoneCached(disk);
      NoneHeld(itable);
    }

    lemma CoreFacts(ino: nat)
      requires Core() && ino in held
      ensures GeoOk(geo) && |disk| == geo.total && geo.total < 0x1_0000_0000 && geo.dataStart > 0
      ensures ino in inodes && held[ino].di == inodes[ino] && |inodes[ino].direct| == NDIRECT
    {
    }

    // ---- blocks --------------------------------------------------------------------------------------

    method ReadBlock(b: nat) returns (blk: Block)
      requires CacheOk(slots, disk) && b < |disk|
      modifies this`slots
      ensures CacheOk(slots, disk) && blk == disk[b]
    {
      var s := b % CACHE_SLOTS;
      if !(slots[s].valid && slots[s].block == b) {
        slots := slots[s := CacheSlot(b, true, disk[b])];
      }
      blk := slots[s].data;
    }

    method WriteBlock(b: nat, blk: Block)
      requires CacheOk(slots, disk) && b < |disk|
      modifies this`slots, this`disk
      ensures CacheOk(slots, disk) && disk == old(disk)[b := blk]
    {
      slots := slots[b % CACHE_SLOTS := CacheSlot(b, true, blk)];
      disk := disk[b := blk];
    }

    /** One pass of bitmap_alloc: set the first clear bit in [from, count). */
    method ScanBits(start: nat, count: nat, from: nat) returns (found: int)
      requires CacheOk(slots, disk) && start + (count + BITS - 1) / BITS <= |disk|
      modifies this`slots, this`disk
      ensures CacheOk(slots, disk)
      ensures found < 0 ==> disk == old(disk) && forall i: nat :: from <= i < count ==> BitAt(disk, start, i)
      ensures found >= 0 ==> from <= found < count && start + found / BITS < |old(disk)|
      ensures found >= 0 ==> !BitAt(old(disk), start, found) && disk == SetBit(old(disk), start, found)
    {
      var i := from;
      var buf: Block := ZERO;
      while i < count
        invariant from <= i && CacheOk(slots, disk) && disk == old(disk)
        invariant from < i ==> start + (i - 1) / BITS < |disk| && buf == disk[start + (i - 1) / BITS]
        invariant forall k: nat :: from <= k < i && k < count ==> BitAt(disk, start, k)
      {
        var b, bit := start + i / BITS, i % BITS;
        if bit == 0 || i == from {
          buf := ReadBlock(b);
        }
        assert buf == disk[b];
        if !BlockBit(buf, bit) {
          WriteBlock(b, OrBlock(buf, bit));
          return i;
        }
        i := i + 1;
      }
      return -1;
    }

    /** From the hint on, then from the start. */
    method BitmapAlloc(start: nat, count: nat, hint: nat) returns (found: int, hint': nat)
      requires CacheOk(slots, disk) && start + (count + BITS - 1) / BITS <= |disk|
      modifies this`slots, this`disk
      ensures CacheOk(slots, disk)
      ensures found < 0 <==> forall i: nat :: i < count ==> BitAt(old(disk), start, i)
      ensures found < 0 ==> disk == old(disk) && hint' == hint
      ensures found >= 0 ==> found < count && start + found / BITS < |old(disk)| && hint' == found + 1
      ensures found >= 0 ==> !BitAt(old(disk), start, found) && disk == SetBit(old(disk), start, found)
    {
      hide BitAt, SetBit;
      hint' := hint;
      found := ScanBits(start, count, hint);
      if found < 0 {
        found := ScanBits(start, count, 0);
      }
      if found >= 0 {
        hint' := found + 1;
      }
    }

    method BitmapFree(start: nat, i: nat, hint: nat) returns (hint': nat)
      requires CacheOk(slots, disk) && start + i / BITS < |disk|
      modifies this`slots, this`disk
      ensures CacheOk(slots, disk) && disk == UnsetBit(old(disk), start, i)
      ensures hint' == if i < hint then i else hint
    {
      var buf := ReadBlock(start + i / BITS);
      hint' := if i < hint then i else hint;
      WriteBlock(start + i / BITS, ClearBlock(buf, i % BITS));
    }

    /** A zeroed block for `owner`, or -1 when none is free. */
    method AllocBlock(ghost owner: Owner) returns (b: int)
      requires Stored()
      modifies this`slots, this`disk, this`freeBlocks, this`blockHint, this`own
      ensures Stored() && (b < 0 <==> old(freeBlocks) == 0)
      ensures b < 0 ==> disk == old(disk) && own == old(own) && freeBlocks == 0
      ensures b >= 0 ==> geo.dataStart <= b < geo.total && b !in old(own) && own == old(own)[b := owner]
      ensures b >= 0 ==> |disk| == |old(disk)| && IsZero(disk[b]) && SameOwned(old(disk), disk, old(own))
    {
      hide BitAt, SetBit, IsZero, CacheOk, InodeBits, BlockBits, SameOwned;
      NoneFree(geo, disk, own, freeBlocks);
      OwnInData(geo, disk, own, freeBlocks);
      b, blockHint := BitmapAlloc(geo.bitmapStart, geo.total, blockHint);
      if b < 0 { return; }
      AllocBlockBits(geo, old(disk), own, freeBlocks, b, owner, inodes.Keys, freeInodes);
      WriteBlock(b, ZERO);
      freeBlocks := freeBlocks - 1;
      own := own[b := owner];
    }

    /** Give back an owned block; a pointer outside the data area is ignored. */
    method FreeBlock(b: nat)
      requires Stored() && (b in own || b < geo.dataStart || b >= geo.total)
      modifies this`slots, this`disk, this`freeBlocks, this`blockHint, this`own
      ensures Stored() && own == old(own) - {b} && SameData(geo, old(disk), disk)
    {
      hide BitAt, UnsetBit, CacheOk, InodeBits, SameData;
      OwnInData(geo, disk, own, freeBlocks);
      hide BlockBits;
      if b < geo.dataStart || b >= geo.total {
        SameSelf(geo, disk, own, b);
        return;
      }
      FreeBlockBits(geo, disk, own, freeBlocks, b, inodes.Keys, freeInodes);
      blockHint := BitmapFree(geo.bitmapStart, b, blockHint);
      freeBlocks := freeBlocks + 1;
      own := own - {b};
    }

    // ---- mapping blocks --------------------------------------------------------------------------------

    /** The in-memory inode gets new contents and is marked for writing back. */
    method PutHeld(ino: nat, di: Inode)
      requires ino in held && HeldOk(itable, held, inodes)
      modifies this`held, this`inodes
      ensures held == old(held)[ino := Held(di, true, old(held)[ino].refs)] && inodes == old(inodes)[ino := di]
      ensures HeldOk(itable, held, inodes) && inodes.Keys == old(inodes.Keys) && SameRefs(old(held), held)
    {
      HeldPut(itable, held, inodes, ino, di);
      hide HeldOk, SameRefs;
      held := held[ino := Held(di, true, held[ino].refs)];
      inodes := inodes[ino := di];
    }

    /** The block a held inode has at a position. */
    ghost predicate AtIs(ino: nat, pos: Pos, b: int)
      reads this`disk, this`held, this`inodes
    {
      ino in held && ino in inodes && PosOk(pos) && At(disk, inodes[ino], pos) == b
    }

    /** What mapping a block may do: files stay as they are. */
    twostate predicate Mapped()
      reads this
    {
      && SameFiles(old(disk), old(inodes), disk, inodes)
      && held.Keys == old(held.Keys) && SameRefs(old(held), held) && itable == old(itable) && |disk| == |old(disk)|
    }

    /** All but the cache is as it was. */
    twostate predicate Untouched()
      reads this
    {
      && disk == old(disk) && freeBlocks == old(freeBlocks) && freeInodes == old(freeInodes)
      && blockHint == old(blockHint) && inodeHint == old(inodeHint)
      && itable == old(itable) && held == old(held) && own == old(own) && inodes == old(inodes)
    }

    /** Allocate a block for an empty position whose pointer is in the inode. */
    method GrowInInode(ino: nat, pos: Pos) returns (b: int)
      requires Core() && InInode(pos) && AtIs(ino, pos, 0)
      modifies this`slots, this`disk, this`freeBlocks, this`blockHint, this`own, this`held, this`inodes
      ensures Core() && Mapped() && (b < 0 <==> old(freeBlocks) == 0)
      ensures b < 0 ==> disk == old(disk) && inodes == old(inodes) && own == old(own) && freeBlocks == 0
      ensures b >= 0 ==> b > 0 && AtIs(ino, pos, b)
    {
      hide CacheOk, BlockBits, InodeBits, TreeOk, CountOk, HeldOk, SameFiles, SameRefs, SameOwned, IsZero, At, GeoOk;
      CoreFacts(ino);
      SameRefl(disk, inodes, held);
      b := AllocBlock(Owner(ino, pos));
      if b < 0 { return; }
      Installed(geo, old(disk), disk, inodes, old(own), ino, pos, b);
      PutHeld(ino, SetInode(held[ino].di, pos, b));
    }

    /** The same when the pointer is in index block `idx`, whose contents are `ptrs`. */
    method GrowInIndex(ino: nat, pos: Pos, idx: nat, ptrs: Block) returns (b: int)
      requires Core() && !InInode(pos) && AtIs(ino, pos, 0) && AtIs(ino, Parent(pos), idx)
      requires idx > 0 && idx < |disk| && ptrs == disk[idx]
      modifies this`slots, this`disk, this`freeBlocks, this`blockHint, this`own, this`held, this`inodes
      ensures Core() && Mapped() && (b < 0 <==> old(freeBlocks) == 0)
      ensures b < 0 ==> disk == old(disk) && inodes == old(inodes) && own == old(own) && freeBlocks == 0
      ensures b >= 0 ==> b > 0 && AtIs(ino, pos, b)
    {
      hide CacheOk, BlockBits, InodeBits, TreeOk, CountOk, HeldOk, SameFiles, SameRefs, IsZero, At, GeoOk, Put32,
           SetDisk, SetInode, SameOwned;
      CoreFacts(ino);
      SameRefl(disk, inodes, held);
      ParentAt(disk, inodes[ino], pos);
      Owned(disk, inodes, own, ino, Parent(pos));
      b := AllocBlock(Owner(ino, pos));
      if b < 0 { return; }
      Installed(geo, old(disk), disk, inodes, old(own), ino, pos, b);
      PutHeld(ino, SetInode(held[ino].di, pos, b));
      ghost var d := disk;
      SameOwnedAt(geo, old(disk), d, old(own), own, freeBlocks, idx);
      SetDiskIs(d, old(inodes)[ino], pos, b, idx);
      WriteBlock(idx, Put32(ptrs, 4 * Slot(pos), b));
      DataFrame(geo, d, idx, disk[idx], own, freeBlocks, inodes.Keys, freeInodes);
    }

    /** The block an index block's slot points to, filling the slot if asked. */
    method BmapSlot(ino: nat, l: nat, idx: nat, ptrs: Block, alloc: bool) returns (b: int)
      requires Core() && NDIRECT <= l < MAX_BLOCKS && AtIs(ino, Parent(Data(l)), idx)
      requires idx > 0 && idx < |disk| && ptrs == disk[idx]
      modifies this`slots, this`disk, this`freeBlocks, this`blockHint, this`own, this`held, this`inodes
      ensures Core() && Mapped()
      ensures b >= 0 ==> b > 0 && AtIs(ino, Data(l), b)
      ensures b < 0 && alloc ==> freeBlocks == 0
      ensures b < 0 ==> disk == old(disk) && inodes == old(inodes) && own == old(own)
      ensures !alloc ==> Untouched()
      ensures !alloc ==> (b < 0 <==> AtIs(ino, Data(l), 0))
    {
      hide CacheOk, BlockBits, InodeBits, TreeOk, CountOk, HeldOk, SameFiles, SameRefs, At, GeoOk, U32;
      CoreFacts(ino);
      SameRefl(disk, inodes, held);
      ParentAt(disk, inodes[ino], Data(l));
      b := U32(ptrs, 4 * Slot(Data(l)));
      if b == 0 {
        if !alloc { return -1; }
        b := GrowInIndex(ino, Data(l), idx, ptrs);
      }
    }

    /** The index block at a position in the inode, allocated if asked; 0 when there is none. */
    method IndexBlock(ino: nat, pos: Pos, alloc: bool) returns (idx: nat)
      requires Core() && ino in held && (pos.Ind? || pos.DInd?)
      modifies this`slots, this`disk, this`freeBlocks, this`blockHint, this`own, this`held, this`inodes
      ensures Core() && Mapped() && AtIs(ino, pos, idx) && idx < |disk|
      ensures idx == 0 && alloc ==> freeBlocks == 0
      ensures idx == 0 ==> disk == old(disk) && inodes == old(inodes) && own == old(own)
      ensures !alloc ==> Untouched()
    {
      hide CacheOk, BlockBits, InodeBits, TreeOk, CountOk, HeldOk, SameFiles, SameRefs, At, GeoOk;
      CoreFacts(ino);
      SameRefl(disk, inodes, held);
      InodeAt(disk, inodes[ino]);
      idx := if pos.Ind? then held[ino].di.indirect else held[ino].di.dindirect;
      Owned(disk, inodes, own, ino, pos);
      if idx == 0 && alloc {
        var b := GrowInInode(ino, pos);
        if b < 0 { return 0; }
        idx := b;
        CoreFacts(ino);
        Owned(disk, inodes, own, ino, pos);
      }
    }

    /** Logical block to disk block, -1 for a hole; allocates data and index blocks if asked. */
    method Bmap(ino: nat, lblk: nat, alloc: bool) returns (b: int)
      requires Core() && ino in held
      modifies this`slots, this`disk, this`freeBlocks, this`blockHint, this`own, this`held, this`inodes
      ensures Core() && Mapped()
      ensures b >= 0 ==> b > 0 && AtIs(ino, Data(lblk), b)
      ensures b < 0 && alloc ==> lblk >= MAX_BLOCKS || freeBlocks == 0
      ensures !alloc ==> Untouched()
      ensures !alloc ==> (b < 0 <==> lblk >= MAX_BLOCKS || AtIs(ino, Data(lblk), 0))
    {
      hide CacheOk, BlockBits, InodeBits, TreeOk, CountOk, HeldOk, SameFiles, SameRefs, At, GeoOk, U32;
      CoreFacts(ino);
      SameRefl(disk, inodes, held);
      if lblk < NDIRECT {
        DirectAt(disk, inodes[ino], lblk);
        b := held[ino].di.direct[lblk];
        if b == 0 && alloc {
          b := GrowInInode(ino, Data(lblk));
        }
        return if b > 0 then b else -1;
      }
      if lblk < NDIRECT + PTRS {
        b := BmapIndirect(ino, lblk, alloc);
      } else {
        b := BmapDouble(ino, lblk, alloc);
      }
    }

    method BmapIndirect(ino: nat, lblk: nat, alloc: bool) returns (b: int)
      requires Core() && ino in held && NDIRECT <= lblk < NDIRECT + PTRS
      modifies this`slots, this`disk, this`freeBlocks, this`blockHint, this`own, this`held, this`inodes
      ensures Core() && Mapped()
      ensures b >= 0 ==> b > 0 && AtIs(ino, Data(lblk), b)
      ensures b < 0 && alloc ==> freeBlocks == 0
      ensures !alloc ==> Untouched()
      ensures !alloc ==> (b < 0 <==> AtIs(ino, Data(lblk), 0))
    {
      hide CacheOk, BlockBits, InodeBits, TreeOk, CountOk, HeldOk, SameFiles, SameRefs, At, GeoOk, U32;
      CoreFacts(ino);
      ParentAt(disk, inodes[ino], Data(lblk));
      var idx := IndexBlock(ino, Ind, alloc);
      if idx == 0 { return -1; }
      var ptrs := ReadBlock(idx);
      ghost var d, i, h := disk, inodes, held;
      b := BmapSlot(ino, lblk, idx, ptrs, alloc);
      SameTrans(old(disk), old(inodes), d, i, disk, inodes);
      RefsTrans(old(held), h, held);
    }

    method BmapDouble(ino: nat, lblk: nat, alloc: bool) returns (b: int)
      requires Core() && ino in held && NDIRECT + PTRS <= lblk
      modifies this`slots, this`disk, this`freeBlocks, this`blockHint, this`own, this`held, this`inodes
      ensures Core() && Mapped()
      ensures b >= 0 ==> b > 0 && AtIs(ino, Data(lblk), b)
      ensures b < 0 && alloc ==> lblk >= MAX_BLOCKS || freeBlocks == 0
      ensures !alloc ==> Untouched()
      ensures !alloc ==> (b < 0 <==> lblk >= MAX_BLOCKS || AtIs(ino, Data(lblk), 0))
    {
      hide CacheOk, BlockBits, InodeBits, TreeOk, CountOk, HeldOk, SameFiles, SameRefs, At, GeoOk, U32;
      CoreFacts(ino);
      SameRefl(disk, inodes, held);
      if lblk >= MAX_BLOCKS { return -1; }
      ParentAt(disk, inodes[ino], Data(lblk));
      var mid := MidBlock(ino, (lblk - NDIRECT - PTRS) / PTRS, alloc);
      if mid == 0 { return -1; }
      var ptrs := ReadBlock(mid);
      ghost var d, i, h := disk, inodes, held;
      b := BmapSlot(ino, lblk, mid, ptrs, alloc);
      SameTrans(old(disk), old(inodes), d, i, disk, inodes);
      RefsTrans(old(held), h, held);
    }

    /** The index block below the double-indirect one; 0 when there is none. */
    method MidBlock(ino: nat, i1: nat, alloc: bool) returns (mid: nat)
      requires Core() && ino in held && i1 < PTRS
      modifies this`slots, this`disk, this`freeBlocks, this`blockHint, this`own, this`held, this`inodes
      ensures Core() && Mapped() && mid < |disk| && (mid > 0 ==> AtIs(ino, Mid(i1), mid))
      ensures mid == 0 && alloc ==> freeBlocks == 0
      ensures !alloc ==> Untouched()
      ensures !alloc ==> AtIs(ino, Mid(i1), mid)
    {
      hide CacheOk, BlockBits, InodeBits, TreeOk, CountOk, HeldOk, SameFiles, SameRefs, At, GeoOk, U32;
      CoreFacts(ino);
      SameRefl(disk, inodes, held);
      ParentAt(disk, inodes[ino], Mid(i1));
      var di := IndexBlock(ino, DInd, alloc);
      if di == 0 { return 0; }
      var ptrs := ReadBlock(di);
      ghost var d, i, h := disk, inodes, held;
      CoreFacts(ino);
      ParentAt(disk, inodes[ino], Mid(i1));
      mid := U32(ptrs, 4 * i1);
      Owned(disk, inodes, own, ino, Mid(i1));
      if mid == 0 && alloc {
        var b := GrowInIndex(ino, Mid(i1), di, ptrs);
        SameTrans(old(disk), old(inodes), d, i, disk, inodes);
        RefsTrans(old(held), h, held);
        if b < 0 { return 0; }
        mid := b;
        CoreFacts(ino);
        Owned(disk, inodes, own, ino, Mid(i1));
      }
    }

    // ---- file data -----------------------------------------------------------------------------------

    /** Up to `len` bytes from `pos`. */
    method Read(ino: nat, pos: nat, len: nat) returns (out: seq<Byte>)
      requires Core() && ino in held
      modifies this`slots, this`disk, this`freeBlocks, this`blockHint, this`own, this`held, this`inodes
      ensures Core() && Untouched()
      ensures ino in inodes && out == Extract(File(disk, inodes[ino]), pos, len)
    {
      hide CacheOk, BlockBits, InodeBits, TreeOk, CountOk, HeldOk, SameFiles, SameRefs, At, GeoOk, U32, ByteAt;
      CoreFacts(ino);
      out := [];
      var size := held[ino].di.size;
      if pos >= size { return; }
      var n := if pos + len > size then size - pos else len;
      ghost var di := inodes[ino];
      while |out| < n
        invariant Core() && Untouched()
        invariant |out| <= n && HasBytes(disk, di, pos, out)
        decreases n - |out|
      {
        var lblk, off := (pos + |out|) / BS, (pos + |out|) % BS;
        var k := if BS - off > n - |out| then n - |out| else BS - off;
        CoreFacts(ino);
        Owned2(disk, inodes, own, ino, lblk);
        var pb := Bmap(ino, lblk, false);
        if pb < 0 {
          HoleBytes(disk, di, pos, out, k);
          out := out + ZERO[..k];
        } else {
          var blk := ReadBlock(pb);
          BlockBytes(disk, di, pos, out, k, pb);
          out := out + blk[off..off + k];
        }
      }
      ExtractIs(disk, di, pos, len, out);
    }

    /** Write back the inode if it is dirty. */
    method Flush(ino: nat)
      requires ino in held && HeldOk(itable, held, inodes)
      modifies this`itable, this`held
      ensures held == old(held)[ino := Held(old(held)[ino].di, false, old(held)[ino].refs)]
      ensures HeldOk(itable, held, inodes) && held.Keys == old(held.Keys) && SameRefs(old(held), held)
      ensures itable == old(itable)[ino := held[ino].di]
    {
      HeldFlush(itable, held, inodes, ino);
      hide HeldOk, SameRefs;
      if held[ino].dirty {
        itable := itable[ino := held[ino].di];
      }
      held := held[ino := Held(held[ino].di, false, held[ino].refs)];
    }

    method SetMeta(ino: nat, links: nat, size: nat)
      requires Core() && ino in held
      modifies this`held, this`inodes
      ensures Core() && inodes == old(inodes)[ino := WithMeta(old(inodes)[ino], links, size)]
      ensures SameRefs(old(held), held) && held.Keys == old(held.Keys)
    {
      hide CacheOk, BlockBits, InodeBits, TreeOk, CountOk, HeldOk, SameRefs, At, GeoOk, WithMeta;
      CoreFacts(ino);
      MetaTree(disk, inodes, own, ino, links, size);
      PutHeld(ino, WithMeta(held[ino].di, links, size));
    }

    /** Write one chunk, inside one block; false when no block could be had. */
    method WriteChunk(ino: nat, p: nat, chunk: seq<Byte>) returns (ok: bool)
      requires Core() && ino in held && 0 < |chunk| && p % BS + |chunk| <= BS
      modifies this`slots, this`disk, this`freeBlocks, this`blockHint, this`own, this`held, this`inodes
      ensures Core() && held.Keys == old(held.Keys) && SameRefs(old(held), held) && itable == old(itable)
      ensures Wrote(old(disk), old(inodes), disk, inodes, ino, p, if ok then chunk else [])
      ensures !ok ==> freeBlocks == 0 || p / BS >= MAX_BLOCKS
    {
      hide CacheOk, BlockBits, InodeBits, TreeOk, CountOk, HeldOk, SameFiles, SameRefs, At, GeoOk, ByteAt, Wrote, Patch;
      var pb := Bmap(ino, p / BS, true);
      WroteNothing(old(disk), old(inodes), disk, inodes, ino, p);
      if pb < 0 { return false; }
      CoreFacts(ino);
      Owned(disk, inodes, own, ino, Data(p / BS));
      OwnInData(geo, disk, own, freeBlocks);
      var blk: Block := ZERO;
      if |chunk| != BS {
        blk := ReadBlock(pb);
      }
      ghost var d := disk;
      WriteBlock(pb, Patch(blk, p % BS, chunk));
      StoreData(d, inodes, own, ino, p / BS, disk[pb]);
      DataFrame(geo, d, pb, disk[pb], own, freeBlocks, inodes.Keys, freeInodes);
      WroteStore(old(disk), old(inodes), d, inodes, own, ino, p, blk, chunk);
      return true;
    }

    /** The chunks of a write, until one fails. */
    method WriteAll(ino: nat, pos: nat, data: seq<Byte>) returns (done: nat)
      requires Core() && ino in held
      modifies this`slots, this`disk, this`freeBlocks, this`blockHint, this`own, this`held, this`inodes
      ensures Core() && held.Keys == old(held.Keys) && SameRefs(old(held), held) && done <= |data|
      ensures Wrote(old(disk), old(inodes), disk, inodes, ino, pos, data[..done])
      ensures done < |data| ==> freeBlocks == 0 || (pos + done) / BS >= MAX_BLOCKS
    {
      hide CacheOk, BlockBits, InodeBits, TreeOk, CountOk, HeldOk, SameFiles, SameRefs, At, GeoOk, ByteAt, Wrote;
      WroteRefl(disk, inodes, held, ino, pos);
      done := 0;
      while done < |data|
        invariant done <= |data| && Core() && held.Keys == old(held.Keys) && SameRefs(old(held), held)
        invariant Wrote(old(disk), old(inodes), disk, inodes, ino, pos, data[..done])
        decreases |data| - done
      {
        var off := (pos + done) % BS;
        var n := if BS - off > |data| - done then |data| - done else BS - off;
        ghost var d, i, h := disk, inodes, held;
        var ok := WriteChunk(ino, pos + done, data[done..done + n]);
        RefsTrans(old(held), h, held);
        WroteTrans(old(disk), old(inodes), d, i, disk, inodes, ino, pos, data[..done],
                   if ok then data[done..done + n] else []);
        if !ok {
          assert data[..done] + [] == data[..done];
          break;
        }
        assert data[..done + n] == data[..done] + data[done..done + n];
        done := done + n;
      }
    }

    /** Write `data` at `pos`. Short, or -1 when nothing was written, only if the disk is full or the
        end of what an inode can map is reached. */
    method Write(ino: nat, pos: nat, data: seq<Byte>) returns (r: int)
      requires Valid() && ino in held
      modifies this
      ensures Valid() && held.Keys == old(held.Keys) && SameRefs(old(held), held) && ino in inodes && ino in old(inodes)
      ensures r <= |data| && (r < 0 ==> |data| > 0) && (r == 0 ==> |data| == 0)
      ensures r < |data| ==> freeBlocks == 0 || (pos + Done(r)) / BS >= MAX_BLOCKS
      ensures File(disk, inodes[ino]) == Overwrite(old(File(disk, inodes[ino])), pos, data[..Done(r)])
      ensures Others(old(disk), old(inodes), disk, inodes, ino)
      ensures inodes[ino].links == old(inodes)[ino].links
    {
      hide CacheOk, BlockBits, InodeBits, TreeOk, CountOk, HeldOk, SameFiles, SameRefs, At, GeoOk, ByteAt, Wrote,
           TailsZero, File, Overwrite, Others;
      CoreFacts(ino);
      var done := WriteAll(ino, pos, data);
      ghost var h := held;
      CoreFacts(ino);
      ghost var i := inodes;
      SetMeta(ino, held[ino].di.links, if pos + done > held[ino].di.size then pos + done else held[ino].di.size);
      RefsTrans(old(held), h, held);
      ghost var h2 := held;
      Flush(ino);
      RefsTrans(old(held), h2, held);
      WroteFile(old(disk), old(inodes), disk, i, ino, pos, data[..done]);
      r := if done > 0 then done else if |data| > 0 then -1 else 0;
    }

    // ---- freeing an inode's blocks -------------------------------------------------------------------

    /** Of the blocks `own0` of inode `ino`, as it was on disk `d0`, those ranked below `r` are freed. */
    ghost predicate Freeing(d0: seq<Block>, own0: map<nat, Owner>, ino: nat, r: nat)
      reads this`disk, this`slots, this`freeBlocks, this`freeInodes, this`own, this`inodes
    {
      && Stored() && ino in inodes && TreeOk(d0, inodes, own0) && SameData(geo, d0, disk) && own == Left(own0, ino, r)
      && forall b :: b in own0 ==> geo.dataStart <= b < geo.total
    }

    /** Free the block found at one position, if any. */
    method FreePos(ghost d0: seq<Block>, ghost own0: map<nat, Owner>, ghost ino: nat, ghost pos: Pos, v: nat)
      requires Freeing(d0, own0, ino, Rank(pos)) && PosOk(pos) && v == At(d0, inodes[ino], pos)
      modifies this`slots, this`disk, this`freeBlocks, this`blockHint, this`own
      ensures Freeing(d0, own0, ino, Rank(pos) + 1)
    {
      hide CacheOk, BlockBits, InodeBits, TreeOk, At, GeoOk, Rank, Left, SameData;
      LeftStep(d0, inodes, own0, ino, pos);
      if v != 0 {
        ghost var d := disk;
        FreeBlock(v);
        SameDataTrans(geo, d0, d, disk);
      }
    }

    method ReadIndex(ghost d0: seq<Block>, ghost own0: map<nat, Owner>, ghost ino: nat, ghost r: nat, ghost pos: Pos,
                     b: nat) returns (ptrs: Block)
      requires Freeing(d0, own0, ino, r) && PosOk(pos) && b == At(d0, inodes[ino], pos) && b != 0
      modifies this`slots
      ensures Freeing(d0, own0, ino, r) && b < |d0| && ptrs == d0[b]
    {
      hide CacheOk, BlockBits, InodeBits, TreeOk, At, Rank, Left;
      Owned(d0, inodes, own0, ino, pos);
      OwnInData(geo, disk, own, freeBlocks);
      ptrs := ReadBlock(b);
    }

    method FreeDirect(ghost d0: seq<Block>, ghost own0: map<nat, Owner>, ino: nat, direct: seq<nat>)
      requires Freeing(d0, own0, ino, 0) && |direct| == NDIRECT && direct == inodes[ino].direct
      modifies this`slots, this`disk, this`freeBlocks, this`blockHint, this`own
      ensures Freeing(d0, own0, ino, NDIRECT)
    {
      hide CacheOk, BlockBits, InodeBits, TreeOk, At, GeoOk, Left, SameData;
      for i := 0 to NDIRECT
        invariant Freeing(d0, own0, ino, i)
      {
        DirectAt(d0, inodes[ino], i);
        FreePos(d0, own0, ino, Data(i), direct[i]);
      }
    }

    method FreeIndirect(ghost d0: seq<Block>, ghost own0: map<nat, Owner>, ino: nat, indirect: nat)
      requires Freeing(d0, own0, ino, NDIRECT) && indirect == inodes[ino].indirect
      modifies this`slots, this`disk, this`freeBlocks, this`blockHint, this`own
      ensures Freeing(d0, own0, ino, NDIRECT + PTRS + 1)
    {
      hide CacheOk, BlockBits, InodeBits, TreeOk, At, GeoOk, Left, SameData, U32;
      InodeAt(d0, inodes[ino]);
      if indirect != 0 {
        var ptrs := ReadIndex(d0, own0, ino, NDIRECT, Ind, indirect);
        for i := 0 to PTRS
          invariant Freeing(d0, own0, ino, NDIRECT + i)
        {
          ParentAt(d0, inodes[ino], Data(NDIRECT + i));
          FreePos(d0, own0, ino, Data(NDIRECT + i), U32(ptrs, 4 * i));
        }
        FreePos(d0, own0, ino, Ind, indirect);
      } else {
        NoIndirect(d0, inodes, own0, ino);
      }
    }

    /** The data blocks below index block `i1`, and that block. */
    method FreeMid(ghost d0: seq<Block>, ghost own0: map<nat, Owner>, ino: nat, i1: nat, mid: nat)
      requires i1 < PTRS && Freeing(d0, own0, ino, MidRank(i1)) && mid == At(d0, inodes[ino], Mid(i1))
      modifies this`slots, this`disk, this`freeBlocks, this`blockHint, this`own
      ensures Freeing(d0, own0, ino, MidRank(i1 + 1))
    {
      hide CacheOk, BlockBits, InodeBits, TreeOk, At, GeoOk, Left, SameData, U32, Rank, Stored;
      MidRanks(i1, 0);
      if mid == 0 {
        NoMid(d0, inodes, own0, ino, i1);
        return;
      }
      var ptrs := ReadIndex(d0, own0, ino, MidRank(i1), Mid(i1), mid);
      for k := 0 to PTRS
        invariant Freeing(d0, own0, ino, MidRank(i1) + k)
      {
        MidRanks(i1, k);
        ParentAt(d0, inodes[ino], Data(NDIRECT + PTRS + i1 * PTRS + k));
        FreePos(d0, own0, ino, Data(NDIRECT + PTRS + i1 * PTRS + k), U32(ptrs, 4 * k));
      }
      FreePos(d0, own0, ino, Mid(i1), mid);
    }

    method FreeDouble(ghost d0: seq<Block>, ghost own0: map<nat, Owner>, ino: nat, dindirect: nat)
      requires Freeing(d0, own0, ino, NDIRECT + PTRS + 1) && dindirect == inodes[ino].dindirect
      modifies this`slots, this`disk, this`freeBlocks, this`blockHint, this`own
      ensures Freeing(d0, own0, ino, LAST_RANK)
    {
      hide CacheOk, BlockBits, InodeBits, TreeOk, At, GeoOk, Left, SameData, U32, Stored;
      InodeAt(d0, inodes[ino]);
      if dindirect != 0 {
        var ptrs := ReadIndex(d0, own0, ino, NDIRECT + PTRS + 1, DInd, dindirect);
        for i := 0 to PTRS
          invariant Freeing(d0, own0, ino, MidRank(i))
        {
          ParentAt(d0, inodes[ino], Mid(i));
          FreeMid(d0, own0, ino, i, U32(ptrs, 4 * i));
        }
        FreePos(d0, own0, ino, DInd, dindirect);
      } else {
        NoDouble(d0, inodes, own0, ino);
      }
    }

    /** Every block of an inode goes back to the pool; the inode is left empty. */
    method FreeAllBlocks(ino: nat)
      requires Valid() && ino in held
      modifies this`slots, this`disk, this`freeBlocks, this`blockHint, this`own, this`held, this`inodes
      ensures Valid() && own.Keys == old(own.Keys - BlocksOf(own, ino)) && BlocksOf(own, ino) == {}
      ensures inodes == old(inodes)[ino := Cleared(old(inodes)[ino])]
      ensures Others(old(disk), old(inodes), disk, inodes, ino)
      ensures held.Keys == old(held.Keys) && SameRefs(old(held), held)
    {
      hide CacheOk, BlockBits, InodeBits, TreeOk, At, GeoOk, Left, SameData, CountOk, HeldOk, TailsZero, BlocksOf,
           Others, SameRefs, Cleared;
      CoreFacts(ino);
      var di := held[ino].di;
      FreeTree(ino, di);
      FreedFs(geo, old(disk), disk, inodes, old(own), ino);
      PutHeld(ino, Cleared(di));
    }

    /** The walk over the three levels. */
    method FreeTree(ino: nat, di: Inode)
      requires Stored() && TreeOk(disk, inodes, own) && ino in inodes && di == inodes[ino] && |di.direct| == NDIRECT
      modifies this`slots, this`disk, this`freeBlocks, this`blockHint, this`own
      ensures Stored() && SameData(geo, old(disk), disk) && own == Left(old(own), ino, LAST_RANK)
      ensures forall b :: b in old(own) ==> geo.dataStart <= b < geo.total
    {
      hide CacheOk, BlockBits, InodeBits, TreeOk, At, GeoOk, Left, SameData;
      LeftStart(own, ino);
      SameDataRefl(geo, disk);
      OwnInData(geo, disk, own, freeBlocks);
      FreeDirect(old(disk), old(own), ino, di.direct);
      FreeIndirect(old(disk), old(own), ino, di.indirect);
      FreeDouble(old(disk), old(own), ino, di.dindirect);
    }

    /** Grow with zeros, or cut to nothing; cutting to anything else is refused. */
    method Truncate(ino: nat, size: nat) returns (ok: bool)
      requires Valid() && ino in held
      modifies this
      ensures Valid() && held.Keys == old(held.Keys) && SameRefs(old(held), held) && ino in inodes && ino in old(inodes)
      ensures ok <==> size == 0 || size >= old(inodes)[ino].size
      ensures Others(old(disk), old(inodes), disk, inodes, ino) && inodes[ino].links == old(inodes)[ino].links
      ensures ok && size > 0 ==>
                File(disk, inodes[ino]) == old(File(disk, inodes[ino])) + Zeros(size - old(inodes)[ino].size)
      ensures ok && size > 0 ==> own == old(own)
      ensures ok && size == 0 ==> File(disk, inodes[ino]) == [] && own.Keys == old(own.Keys - BlocksOf(own, ino))
      ensures !ok ==> disk == old(disk) && inodes == old(inodes) && own == old(own)
    {
      hide CacheOk, BlockBits, InodeBits, TreeOk, At, GeoOk, CountOk, HeldOk, TailsZero, BlocksOf, Others, SameRefs,
           ByteAt;
      CoreFacts(ino);
      OthersRefl(disk, inodes, held, ino);
      ghost var h := held;
      if size != 0 {
        if size < held[ino].di.size { return false; }
        GrownFile(disk, inodes, ino, size);
        SetMeta(ino, held[ino].di.links, size);
        h := held;
      } else {
        FreeAllBlocks(ino);
        h := held;
      }
      Flush(ino);
      RefsTrans(old(held), h, held);
      return true;
    }

    // ---- inodes: names and references ---------------------------------------------------------------

    /** A new inode with one name, or -1 when there is none. */
    method CreateInode() returns (ino: int)
      requires Valid()
      modifies this
      ensures Valid() && held == old(held) && own == old(own) && (ino < 0 <==> old(freeInodes) == 0)
      ensures ino >= 0 ==> ino > 0 && ino !in old(inodes) && inodes == old(inodes)[ino := NewInode()]
      ensures ino >= 0 ==> inodes[ino].links == 1 && inodes[ino].size == 0
      ensures ino < 0 ==> inodes == old(inodes)
      ensures Kept(old(disk), old(inodes), disk, inodes)
    {
      hide CacheOk, TreeOk, At, CountOk, HeldOk, TailsZero, ByteAt, BitAt, SetBit, InodeBits, BlockBits, NewInode, Kept;
      NewInodeIs();
      NoInodeFree(geo, disk, inodes.Keys, freeInodes);
      OwnInData(geo, disk, own, freeBlocks);
      KeptRefl(disk, inodes);
      ino, inodeHint := BitmapAlloc(geo.inodeMapStart, geo.inodeCount, inodeHint);
      if ino <= 0 { return -1; }
      AllocInodeFs(geo, old(disk), inodes, own, freeBlocks, freeInodes, ino, itable, held);
      freeInodes := freeInodes - 1;
      itable := itable[ino := NewInode()];
      inodes := inodes[ino := NewInode()];
    }

    /** One more vnode holds the inode; the first brings it in from disk. */
    method Get(ino: nat)
      requires Valid() && ino in inodes
      modifies this`held
      ensures Valid() && held.Keys == old(held.Keys) + {ino} && held[ino].di == inodes[ino]
      ensures held == old(held)[ino := held[ino]]
      ensures held[ino].refs == if ino in old(held) then old(held)[ino].refs + 1 else 1
    {
      hide CacheOk, TreeOk, CountOk, TailsZero, BlockBits, InodeBits, GeoOk;
      TakeRef(itable, held, inodes, ino);
      hide HeldOk;
      if ino in held {
        held := held[ino := Held(held[ino].di, held[ino].dirty, held[ino].refs + 1)];
      } else {
        held := held[ino := Held(itable[ino], false, 1)];
      }
    }

    /** One more name. */
    method Link(ino: nat)
      requires Valid() && ino in held
      modifies this`held, this`inodes, this`itable
      ensures Valid() && held.Keys == old(held.Keys) && SameRefs(old(held), held)
      ensures ino in old(inodes)
      ensures inodes == old(inodes)[ino := old(inodes)[ino].(links := old(inodes)[ino].links + 1)]
    {
      hide CacheOk, BlockBits, InodeBits, TreeOk, CountOk, HeldOk, SameRefs, At, GeoOk, WithMeta, TailsZero;
      CoreFacts(ino);
      MetaIs(inodes[ino], inodes[ino].links + 1, inodes[ino].size);
      RelinkedTails(disk, inodes, ino, inodes[ino].links + 1);
      SetMeta(ino, held[ino].di.links + 1, held[ino].di.size);
      ghost var h := held;
      Flush(ino);
      RefsTrans(old(held), h, held);
    }

    /** One name less. The last one only marks the inode: it lives while it is held. */
    method Unlink(ino: nat)
      requires Valid() && ino in held
      modifies this`held, this`inodes, this`itable
      ensures Valid() && held.Keys == old(held.Keys) && SameRefs(old(held), held)
      ensures ino in old(inodes) && ino in inodes
      ensures inodes == old(inodes)[ino := old(inodes)[ino].(links := inodes[ino].links)]
      ensures old(inodes)[ino].links > 0 ==> inodes[ino].links + 1 == old(inodes)[ino].links
      ensures old(inodes)[ino].links == 0 ==> inodes[ino].links == 0
    {
      hide CacheOk, BlockBits, InodeBits, TreeOk, CountOk, HeldOk, SameRefs, At, GeoOk, WithMeta, TailsZero;
      CoreFacts(ino);
      ghost var left := if inodes[ino].links > 0 then inodes[ino].links - 1 else 0;
      MetaIs(inodes[ino], left, inodes[ino].size);
      RelinkedTails(disk, inodes, ino, left);
      if held[ino].di.links > 1 {
        SetMeta(ino, held[ino].di.links - 1, held[ino].di.size);
        ghost var h := held;
        Flush(ino);
        RefsTrans(old(held), h, held);
      } else {
        SetMeta(ino, 0, held[ino].di.size);
      }
    }

    /** A vnode lets go of the inode. With the last one, an inode without names returns its blocks and
        itself to the pool; any other is written back if need be. */
    method Put(ino: nat)
      requires Valid() && ino in held
      modifies this
      ensures Valid() && ino in old(inodes)
      ensures Others(old(disk), old(inodes), disk, inodes[ino := old(inodes)[ino]], ino)
      ensures old(held)[ino].refs > 1 ==>
                held == old(held)[ino := Held(old(held)[ino].di, old(held)[ino].dirty, old(held)[ino].refs - 1)]
      ensures old(held)[ino].refs == 1 ==> held.Keys == old(held.Keys) - {ino}
      ensures Dies(old(held), ino) ==>
                inodes.Keys == old(inodes.Keys) - {ino} && own.Keys == old(own.Keys - BlocksOf(own, ino))
      ensures !Dies(old(held), ino) ==> inodes == old(inodes) && own == old(own) && disk == old(disk)
    {
      hide CacheOk, BlockBits, InodeBits, TreeOk, CountOk, HeldOk, SameRefs, At, GeoOk, TailsZero, Others, BlocksOf,
           Cleared;
      CoreFacts(ino);
      OthersRefl(disk, inodes, held, ino);
      SameKey(inodes, ino);
      if held[ino].refs > 1 {
        DropRef(itable, held, inodes, ino);
        held := held[ino := Held(held[ino].di, held[ino].dirty, held[ino].refs - 1)];
        return;
      }
      HeldRefs(itable, held, inodes, ino);
      if held[ino].di.links == 0 {
        Destroy(ino);
      } else {
        DropHeld(itable, held, inodes, ino);
        if held[ino].dirty {
          itable := itable[ino := held[ino].di];
        }
        held := held - {ino};
      }
    }

    method Destroy(ino: nat)
      requires Valid() && ino in held
      modifies this
      ensures Valid() && ino in old(inodes)
      ensures Others(old(disk), old(inodes), disk, inodes[ino := old(inodes)[ino]], ino)
      ensures held.Keys == old(held.Keys) - {ino} && inodes.Keys == old(inodes.Keys) - {ino}
      ensures own.Keys == old(own.Keys - BlocksOf(own, ino)) && freeInodes == old(freeInodes) + 1
    {
      hide CacheOk, BlockBits, InodeBits, TreeOk, CountOk, HeldOk, SameRefs, At, GeoOk, TailsZero, Others, BlocksOf,
           Cleared, UnsetBit;
      CoreFacts(ino);
      FreeAllBlocks(ino);
      ghost var d, i := disk, inodes;
      FreeInode(ino);
      OthersGone(old(disk), old(inodes), d, i, disk, ino);
    }

    /** Free an inode that owns no blocks. */
    method FreeInode(ino: nat)
      requires Valid() && ino in held && BlocksOf(own, ino) == {}
      modifies this`slots, this`disk, this`freeInodes, this`inodeHint, this`itable, this`held, this`inodes
      ensures Valid() && SameFiles(old(disk), old(inodes), disk, old(inodes)) && freeInodes == old(freeInodes) + 1
      ensures held == old(held) - {ino} && inodes == old(inodes) - {ino}
    {
      hide CacheOk, BlockBits, InodeBits, TreeOk, CountOk, HeldOk, At, GeoOk, TailsZero, BlocksOf, UnsetBit, SameFiles;
      CoreFacts(ino);
      FreeInodeFs(geo, disk, inodes, own, freeBlocks, freeInodes, ino, itable, held);
      inodeHint := BitmapFree(geo.inodeMapStart, ino, inodeHint);
      freeInodes := freeInodes + 1;
      itable := itable - {ino};
      held := held - {ino};
      inodes := inodes - {ino};
    }
  }

  lemma ZeroIsZero()
    ensures |ZERO| == BS && IsZero(ZERO)
  {
  }
}
