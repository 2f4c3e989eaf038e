/** zaefs inodes: 12 direct block pointers, an indirect and a double-indirect index block, over a
    disk of byte blocks. Every used block has one owner, the inode and position that points to it
    (kernel/fs/zaefs.c:238-315, include/abi/zaefs.h). */
module ZaefsTree {
  import opened ZaefsBytes

  const NDIRECT: nat := 12
  const PTRS: nat := 1024
  const MAX_BLOCKS: nat := 12 + 1024 + 1024 * 1024
  const ZERO: seq<Byte> := seq(BS, _ => 0)

  type Block = b: seq<Byte> | |b| == BS witness ZERO

  predicate IsZero(b: Block) { forall k :: 0 <= k < BS ==> b[k] == 0 }

  datatype Inode = Inode(links: nat, size: nat, nblocks: nat, direct: seq<nat>, indirect: nat, dindirect: nat)

  /** Where an inode can point to a block: a data block of the file, the indirect block, the
      double-indirect block, or an index block below the latter. */
  datatype Pos = Data(l: nat) | Ind | DInd | Mid(i: nat)

  datatype Owner = Owner(ino: nat, pos: Pos)

  predicate PosOk(pos: Pos) {
    match pos
    case Data(l) => l < MAX_BLOCKS
    case Mid(i) => i < PTRS
    case _ => true
  }

  // ---- pointers in blocks ----------------------------------------------------------------------

  function Put32(blk: Block, at: nat, v: nat): Block
    requires at + 4 <= BS && v < 0x1_0000_0000
  {
    blk[at := v % 0x100][at + 1 := v / 0x100 % 0x100][at + 2 := v / 0x1_0000 % 0x100][at + 3 := v / 0x100_0000]
  }

  lemma Put32Get(blk: Block, i: nat, v: nat, j: nat)
    requires i < PTRS && j < PTRS && v < 0x1_0000_0000
    ensures U32(Put32(blk, 4 * i, v), 4 * j) == if i == j then v else U32(blk, 4 * j)
  {
    Le32(v);
    if i != j { assert 4 * j + 4 <= 4 * i || 4 * i + 4 <= 4 * j; }
  }

  lemma Le32(v: nat)
    requires v < 0x1_0000_0000
    ensures v == v % 0x100 + 0x100 * (v / 0x100 % 0x100) + 0x1_0000 * (v / 0x1_0000 % 0x100 + 0x100 * (v / 0x100_0000))
  {
    assert v / 0x1_0000 == v / 0x100 / 0x100 && v / 0x100_0000 == v / 0x1_0000 / 0x100;
  }

  function Ptr(disk: seq<Block>, b: nat, i: nat): nat {
    if b < |disk| && i < PTRS then U32(disk[b], 4 * i) else 0
  }

  lemma PtrZero(disk: seq<Block>, b: nat, i: nat)
    requires b < |disk| && IsZero(disk[b])
    ensures Ptr(disk, b, i) == 0
  {
  }

  /** The index block below the double-indirect one, 0 if there is none. */
  function MidAt(disk: seq<Block>, di: Inode, i: nat): nat {
    if di.dindirect == 0 then 0 else Ptr(disk, di.dindirect, i)
  }

  /** The block an inode has at a position, 0 for a hole. */
  function At(disk: seq<Block>, di: Inode, pos: Pos): nat {
    match pos
    case Ind => di.indirect
    case DInd => di.dindirect
    case Mid(i) => MidAt(disk, di, i)
    case Data(l) =>
      if l < NDIRECT then (if l < |di.direct| then di.direct[l] else 0)
      else if l < NDIRECT + PTRS then (if di.indirect == 0 then 0 else Ptr(disk, di.indirect, l - NDIRECT))
      else
        var m := MidAt(disk, di, (l - NDIRECT - PTRS) / PTRS);
        if m == 0 then 0 else Ptr(disk, m, (l - NDIRECT - PTRS) % PTRS)
  }

  // ---- ownership -------------------------------------------------------------------------------

  predicate Owns(own: map<nat, Owner>, b: nat, ino: nat, pos: Pos) { b in own && own[b] == Owner(ino, pos) }

  /** The blocks in `own` are exactly the blocks the inodes point to, each from one position. */
  ghost predicate TreeOk(disk: seq<Block>, inodes: map<nat, Inode>, own: map<nat, Owner>) {
    && (forall ino :: ino in inodes ==> |inodes[ino].direct| == NDIRECT)
    && (forall b :: b in own ==> 0 < b < |disk| && own[b].ino in inodes && PosOk(own[b].pos)
                                 && At(disk, inodes[own[b].ino], own[b].pos) == b)
    && (forall ino, pos :: ino in inodes && PosOk(pos) && At(disk, inodes[ino], pos) != 0
                           ==> Owns(own, At(disk, inodes[ino], pos), ino, pos))
  }

  ghost function BlocksOf(own: map<nat, Owner>, ino: nat): set<nat> { set b | b in own && own[b].ino == ino }

  /** Each inode's block count is the number of blocks it owns. */
  ghost predicate CountOk(inodes: map<nat, Inode>, own: map<nat, Owner>) {
    forall ino :: ino in inodes ==> inodes[ino].nblocks == |BlocksOf(own, ino)|
  }

  lemma Owned(disk: seq<Block>, inodes: map<nat, Inode>, own: map<nat, Owner>, ino: nat, pos: Pos)
    requires TreeOk(disk, inodes, own) && ino in inodes && PosOk(pos)
    ensures At(disk, inodes[ino], pos) != 0
            ==> Owns(own, At(disk, inodes[ino], pos), ino, pos) && At(disk, inodes[ino], pos) < |disk|
  {
    hide At;
  }

  /** No block is reached from two positions. */
  lemma Distinct(disk: seq<Block>, inodes: map<nat, Inode>, own: map<nat, Owner>, i: nat, p: Pos, j: nat, q: Pos)
    requires TreeOk(disk, inodes, own) && i in inodes && j in inodes && PosOk(p) && PosOk(q)
    requires At(disk, inodes[i], p) != 0 && At(disk, inodes[i], p) == At(disk, inodes[j], q)
    ensures i == j && p == q
  {
    Owned(disk, inodes, own, i, p);
    Owned(disk, inodes, own, j, q);
  }

  /** The two disks hold the same index blocks. */
  predicate SameIndex(disk: seq<Block>, disk': seq<Block>, own: map<nat, Owner>) {
    |disk| == |disk'| && forall b :: b in own && b < |disk| && !own[b].pos.Data? ==> disk'[b] == disk[b]
  }

  predicate SameOwned(disk: seq<Block>, disk': seq<Block>, own: map<nat, Owner>) {
    |disk| == |disk'| && forall b :: b in own && b < |disk| ==> disk'[b] == disk[b]
  }

  lemma AtSame(disk: seq<Block>, disk': seq<Block>, inodes: map<nat, Inode>, own: map<nat, Owner>, ino: nat, pos: Pos)
    requires TreeOk(disk, inodes, own) && SameIndex(disk, disk', own) && ino in inodes && PosOk(pos)
    ensures At(disk', inodes[ino], pos) == At(disk, inodes[ino], pos)
  {
    var di := inodes[ino];
    Owned(disk, inodes, own, ino, Ind);
    Owned(disk, inodes, own, ino, DInd);
    if pos.Data? && pos.l >= NDIRECT + PTRS {
      var i := (pos.l - NDIRECT - PTRS) / PTRS;
      Owned(disk, inodes, own, ino, Mid(i));
    }
    hide U32;
  }

  lemma TreeFrame(disk: seq<Block>, disk': seq<Block>, inodes: map<nat, Inode>, own: map<nat, Owner>)
    requires TreeOk(disk, inodes, own) && SameIndex(disk, disk', own)
    ensures TreeOk(disk', inodes, own)
    ensures forall ino, pos :: ino in inodes && PosOk(pos) ==> At(disk', inodes[ino], pos) == At(disk, inodes[ino], pos)
  {
    forall ino, pos | ino in inodes && PosOk(pos)
      ensures At(disk', inodes[ino], pos) == At(disk, inodes[ino], pos)
    {
      AtSame(disk, disk', inodes, own, ino, pos);
    }
    hide At;
  }

  // ---- contents --------------------------------------------------------------------------------

  /** Byte `p` of a file, zero in a hole and beyond the last mappable block. */
  function ByteAt(disk: seq<Block>, di: Inode, p: nat): Byte {
    var b := if p / BS < MAX_BLOCKS then At(disk, di, Data(p / BS)) else 0;
    if 0 < b < |disk| then disk[b][p % BS] else 0
  }

  function File(disk: seq<Block>, di: Inode): (f: seq<Byte>)
    ensures |f| == di.size
  {
    seq(di.size, p requires 0 <= p => ByteAt(disk, di, p))
  }

  /** Past its size every file is zero, so that growing it exposes zeros. */
  ghost predicate TailsZero(disk: seq<Block>, inodes: map<nat, Inode>) {
    forall ino, p: nat :: ino in inodes && inodes[ino].size <= p ==> ByteAt(disk, inodes[ino], p) == 0
  }

  lemma BytesFrame(disk: seq<Block>, disk': seq<Block>, inodes: map<nat, Inode>, own: map<nat, Owner>, ino: nat, p: nat)
    requires TreeOk(disk, inodes, own) && SameOwned(disk, disk', own) && ino in inodes
    ensures ByteAt(disk', inodes[ino], p) == ByteAt(disk, inodes[ino], p)
  {
    hide At;
    if p / BS < MAX_BLOCKS {
      AtSame(disk, disk', inodes, own, ino, Data(p / BS));
      Owned(disk, inodes, own, ino, Data(p / BS));
    }
  }

  /** Storing a data block changes the bytes of that block of that file and nothing else. */
  lemma StoreData(disk: seq<Block>, inodes: map<nat, Inode>, own: map<nat, Owner>, ino: nat, l: nat, blk: Block)
    requires TreeOk(disk, inodes, own) && ino in inodes && l < MAX_BLOCKS && At(disk, inodes[ino], Data(l)) != 0
    ensures At(disk, inodes[ino], Data(l)) < |disk|
    ensures TreeOk(disk[At(disk, inodes[ino], Data(l)) := blk], inodes, own)
  {
    hide At;
    var b := At(disk, inodes[ino], Data(l));
    Owned(disk, inodes, own, ino, Data(l));
    TreeFrame(disk, disk[b := blk], inodes, own);
  }

  lemma StoreDataBytes(disk: seq<Block>, inodes: map<nat, Inode>, own: map<nat, Owner>, ino: nat, l: nat, blk: Block,
                       j: nat, p: nat)
    requires TreeOk(disk, inodes, own) && ino in inodes && l < MAX_BLOCKS && At(disk, inodes[ino], Data(l)) != 0
    requires At(disk, inodes[ino], Data(l)) < |disk| && j in inodes
    ensures ByteAt(disk[At(disk, inodes[ino], Data(l)) := blk], inodes[j], p)
            == if j == ino && p / BS == l then blk[p % BS] else ByteAt(disk, inodes[j], p)
  {
    hide At;
    var b := At(disk, inodes[ino], Data(l));
    Owned(disk, inodes, own, ino, Data(l));
    if p / BS < MAX_BLOCKS {
      AtSame(disk, disk[b := blk], inodes, own, j, Data(p / BS));
      Owned(disk, inodes, own, j, Data(p / BS));
    }
  }

  // ---- installing a fresh block ------------------------------------------------------------------

  /** The pointer lies in the inode itself, not in an index block. */
  predicate InInode(pos: Pos) { pos.Ind? || pos.DInd? || (pos.Data? && pos.l < NDIRECT) }

  /** The position of the index block that holds the pointer. */
  function Parent(pos: Pos): Pos
    requires !InInode(pos)
  {
    if pos.Mid? then DInd
    else if pos.l < NDIRECT + PTRS then Ind
    else Mid((pos.l - NDIRECT - PTRS) / PTRS)
  }

  function Slot(pos: Pos): nat
    requires !InInode(pos) && PosOk(pos)
  {
    if pos.Mid? then pos.i
    else if pos.l < NDIRECT + PTRS then pos.l - NDIRECT
    else (pos.l - NDIRECT - PTRS) % PTRS
  }

  lemma ParentAt(disk: seq<Block>, di: Inode, pos: Pos)
    requires !InInode(pos) && PosOk(pos)
    ensures PosOk(Parent(pos)) && !Parent(pos).Data? && Slot(pos) < PTRS
    ensures At(disk, di, pos) == if At(disk, di, Parent(pos)) == 0 then 0
                                 else Ptr(disk, At(disk, di, Parent(pos)), Slot(pos))
  {
    hide Ptr;
  }

  lemma SlotInjective(p: Pos, q: Pos)
    requires !InInode(p) && !InInode(q) && PosOk(p) && PosOk(q) && Parent(p) == Parent(q) && Slot(p) == Slot(q)
    ensures p == q
  {
  }

  /** The pointer at a position can be written: its index block, if any, exists. */
  predicate HasCell(disk: seq<Block>, di: Inode, pos: Pos) {
    PosOk(pos) && (InInode(pos) || 0 < At(disk, di, Parent(pos)) < |disk|)
  }

  function SetDisk(disk: seq<Block>, di: Inode, pos: Pos, b: nat): seq<Block>
    requires HasCell(disk, di, pos) && b < 0x1_0000_0000
  {
    if InInode(pos) then disk
    else SetPtr(disk, At(disk, di, Parent(pos)), Slot(pos), b)
  }

  function SetPtr(disk: seq<Block>, c: nat, s: nat, b: nat): seq<Block>
    requires c < |disk| && s < PTRS && b < 0x1_0000_0000
  {
    disk[c := Put32(disk[c], 4 * s, b)]
  }

  function SetInode(di: Inode, pos: Pos, b: nat): Inode
    requires |di.direct| == NDIRECT
  {
    if pos.Ind? then Inode(di.links, di.size, di.nblocks + 1, di.direct, b, di.dindirect)
    else if pos.DInd? then Inode(di.links, di.size, di.nblocks + 1, di.direct, di.indirect, b)
    else if pos.Data? && pos.l < NDIRECT
    then Inode(di.links, di.size, di.nblocks + 1, di.direct[pos.l := b], di.indirect, di.dindirect)
    else AddBlock(di)
  }

  function AddBlock(di: Inode): Inode {
    Inode(di.links, di.size, di.nblocks + 1, di.direct, di.indirect, di.dindirect)
  }

  /** A zeroed block is about to become the one at an empty position. */
  ghost predicate CanInstall(disk: seq<Block>, inodes: map<nat, Inode>, own: map<nat, Owner>, ino: nat, pos: Pos,
                             b: nat) {
    && TreeOk(disk, inodes, own) && ino in inodes && HasCell(disk, inodes[ino], pos)
    && At(disk, inodes[ino], pos) == 0
    && 0 < b < |disk| && b !in own && IsZero(disk[b]) && b < 0x1_0000_0000
  }

  lemma PtrSet(disk: seq<Block>, c: nat, s: nat, b: nat, x: nat, k: nat)
    requires c < |disk| && s < PTRS && b < 0x1_0000_0000
    ensures Ptr(SetPtr(disk, c, s, b), x, k) == if x == c && k == s then b else Ptr(disk, x, k)
  {
    if x == c && k < PTRS {
      Put32Get(disk[c], s, b, k);
    }
    hide U32, Put32;
  }

  /** A pointer written into the inode changes that position only. */
  lemma AtSetInInode(disk: seq<Block>, inodes: map<nat, Inode>, own: map<nat, Owner>, ino: nat, pos: Pos, b: nat,
                     q: Pos)
    requires CanInstall(disk, inodes, own, ino, pos, b) && InInode(pos) && PosOk(q)
    ensures At(disk, SetInode(inodes[ino], pos, b), q) == if q == pos then b else At(disk, inodes[ino], q)
  {
    var di, di' := inodes[ino], SetInode(inodes[ino], pos, b);
    if !InInode(q) {
      ParentAt(disk, di, q);
      ParentAt(disk, di', q);
      PtrZero(disk, b, Slot(q));
      var r := Parent(q);
      if !InInode(r) {
        ParentAt(disk, di, r);
        ParentAt(disk, di', r);
        PtrZero(disk, b, Slot(r));
      }
      hide Ptr;
    }
  }

  /** One step of the same for a pointer written into an index block. */
  lemma AtSetStep(disk: seq<Block>, inodes: map<nat, Inode>, own: map<nat, Owner>, ino: nat, pos: Pos, b: nat, j: nat,
                  q: Pos)
    requires CanInstall(disk, inodes, own, ino, pos, b) && !InInode(pos) && PosOk(q) && !InInode(q) && j in inodes
    requires PosOk(Parent(q))
    requires At(SetDisk(disk, inodes[ino], pos, b), inodes[j], Parent(q))
             == if j == ino && Parent(q) == pos then b else At(disk, inodes[j], Parent(q))
    ensures At(SetDisk(disk, inodes[ino], pos, b), inodes[j], q)
            == if j == ino && q == pos then b else At(disk, inodes[j], q)
  {
    hide Ptr, At, Put32;
    var d := SetDisk(disk, inodes[ino], pos, b);
    ParentAt(disk, inodes[ino], pos);
    ParentAt(disk, inodes[j], q);
    ParentAt(d, inodes[j], q);
    var c, x, s := At(disk, inodes[ino], Parent(pos)), At(disk, inodes[j], Parent(q)), Slot(q);
    Owned(disk, inodes, own, ino, Parent(pos));
    PtrSet(disk, c, Slot(pos), b, x, s);
    PtrSet(disk, c, Slot(pos), b, b, s);
    PtrZero(disk, b, s);
    if x == c {
      Distinct(disk, inodes, own, ino, Parent(pos), j, Parent(q));
      if s == Slot(pos) { SlotInjective(pos, q); }
    }
  }

  lemma AtSetInIndex(disk: seq<Block>, inodes: map<nat, Inode>, own: map<nat, Owner>, ino: nat, pos: Pos, b: nat,
                     j: nat, q: Pos)
    requires CanInstall(disk, inodes, own, ino, pos, b) && !InInode(pos) && PosOk(q) && j in inodes
    ensures At(SetDisk(disk, inodes[ino], pos, b), inodes[j], q)
            == if j == ino && q == pos then b else At(disk, inodes[j], q)
  {
    if !InInode(q) {
      ParentAt(disk, inodes[j], q);
      if !InInode(Parent(q)) {
        ParentAt(disk, inodes[j], Parent(q));
        AtSetStep(disk, inodes, own, ino, pos, b, j, Parent(q));
      }
      AtSetStep(disk, inodes, own, ino, pos, b, j, q);
    }
    hide Ptr;
  }

  /** Installing changes what is at that position and nothing else. */
  lemma InstallAt(disk: seq<Block>, inodes: map<nat, Inode>, own: map<nat, Owner>, ino: nat, pos: Pos, b: nat, j: nat,
                  q: Pos)
    requires CanInstall(disk, inodes, own, ino, pos, b) && j in inodes && PosOk(q)
    ensures At(SetDisk(disk, inodes[ino], pos, b), inodes[ino := SetInode(inodes[ino], pos, b)][j], q)
            == if j == ino && q == pos then b else At(disk, inodes[j], q)
  {
    if InInode(pos) {
      AtSetInInode(disk, inodes, own, ino, pos, b, q);
    } else {
      AtSetInIndex(disk, inodes, own, ino, pos, b, j, q);
      AtIgnoresCount(SetDisk(disk, inodes[ino], pos, b), inodes[ino], q);
    }
    hide At;
  }

  lemma AtIgnoresCount(disk: seq<Block>, di: Inode, q: Pos)
    ensures At(disk, AddBlock(di), q) == At(disk, di, q)
  {
    hide Ptr;
  }

  lemma Install(disk: seq<Block>, inodes: map<nat, Inode>, own: map<nat, Owner>, ino: nat, pos: Pos, b: nat)
    requires CanInstall(disk, inodes, own, ino, pos, b)
    ensures TreeOk(SetDisk(disk, inodes[ino], pos, b), inodes[ino := SetInode(inodes[ino], pos, b)],
                   own[b := Owner(ino, pos)])
  {
    hide At;
    var disk' := SetDisk(disk, inodes[ino], pos, b);
    var inodes' := inodes[ino := SetInode(inodes[ino], pos, b)];
    forall j, q | j in inodes && PosOk(q)
      ensures At(disk', inodes'[j], q) == if j == ino && q == pos then b else At(disk, inodes[j], q)
    {
      InstallAt(disk, inodes, own, ino, pos, b, j, q);
    }
    hide SetDisk, SetInode;
    InstallOwned(disk, disk', inodes, inodes', own, ino, pos, b);
  }

  lemma InstallOwned(disk: seq<Block>, disk': seq<Block>, inodes: map<nat, Inode>, inodes': map<nat, Inode>,
                     own: map<nat, Owner>, ino: nat, pos: Pos, b: nat)
    requires TreeOk(disk, inodes, own) && ino in inodes && PosOk(pos) && 0 < b < |disk| == |disk'| && b !in own
    requires inodes'.Keys == inodes.Keys && forall j :: j in inodes' ==> |inodes'[j].direct| == NDIRECT
    requires At(disk, inodes[ino], pos) == 0
    requires forall j, q :: j in inodes && PosOk(q) ==>
               At(disk', inodes'[j], q) == if j == ino && q == pos then b else At(disk, inodes[j], q)
    ensures TreeOk(disk', inodes', own[b := Owner(ino, pos)])
  {
    hide At;
  }

  lemma InstallBytes(disk: seq<Block>, inodes: map<nat, Inode>, own: map<nat, Owner>, ino: nat, pos: Pos, b: nat,
                     j: nat, p: nat)
    requires CanInstall(disk, inodes, own, ino, pos, b) && j in inodes
    ensures ByteAt(SetDisk(disk, inodes[ino], pos, b), inodes[ino := SetInode(inodes[ino], pos, b)][j], p)
            == ByteAt(disk, inodes[j], p)
  {
    hide At, SetInode, Put32;
    if p / BS < MAX_BLOCKS {
      InstallAt(disk, inodes, own, ino, pos, b, j, Data(p / BS));
      Owned(disk, inodes, own, j, Data(p / BS));
      if !InInode(pos) {
        ParentAt(disk, inodes[ino], pos);
        Owned(disk, inodes, own, ino, Parent(pos));
      }
    }
  }

  lemma InstallCount(inodes: map<nat, Inode>, own: map<nat, Owner>, ino: nat, pos: Pos, b: nat)
    requires CountOk(inodes, own) && ino in inodes && b !in own && |inodes[ino].direct| == NDIRECT
    ensures CountOk(inodes[ino := SetInode(inodes[ino], pos, b)], own[b := Owner(ino, pos)])
  {
    hide BlocksOf;
    forall j | j in inodes
      ensures |BlocksOf(own[b := Owner(ino, pos)], j)| == |BlocksOf(own, j)| + if j == ino then 1 else 0
    {
      BlocksOfPut(own, b, Owner(ino, pos), j);
    }
  }

  lemma BlocksOfPut(own: map<nat, Owner>, b: nat, o: Owner, j: nat)
    requires b !in own
    ensures |BlocksOf(own[b := o], j)| == |BlocksOf(own, j)| + if j == o.ino then 1 else 0
  {
    var s := BlocksOf(own, j);
    assert BlocksOf(own[b := o], j) == if j == o.ino then s + {b} else s;
  }

  // ---- freeing every block of an inode -----------------------------------------------------------

  /** The order in which the blocks of an inode are freed. */
  function Rank(pos: Pos): nat {
    match pos
    case Data(l) =>
      if l < NDIRECT + PTRS then l
      else NDIRECT + PTRS + 1 + (l - NDIRECT - PTRS) / PTRS * (PTRS + 1) + (l - NDIRECT - PTRS) % PTRS
    case Ind => NDIRECT + PTRS
    case Mid(i) => NDIRECT + PTRS + 1 + i * (PTRS + 1) + PTRS
    case DInd => NDIRECT + PTRS + 1 + PTRS * (PTRS + 1)
  }

  const LAST_RANK: nat := 12 + 1024 + 1 + 1024 * 1025 + 1

  lemma RankInjective(p: Pos, q: Pos)
    requires PosOk(p) && PosOk(q) && Rank(p) == Rank(q)
    ensures p == q
  {
    RankForm(p);
    RankForm(q);
  }

  /** Ranks past the indirect block determine index block and slot. */
  lemma RankForm(p: Pos)
    requires PosOk(p)
    ensures Rank(p) < LAST_RANK
    ensures p.Data? && p.l >= NDIRECT + PTRS ==>
              var r, m := Rank(p) - NDIRECT - PTRS - 1, p.l - NDIRECT - PTRS;
              r / (PTRS + 1) == m / PTRS && r % (PTRS + 1) == m % PTRS && 0 <= m / PTRS < PTRS
    ensures p.Mid? ==>
              var r := Rank(p) - NDIRECT - PTRS - 1;
              r / (PTRS + 1) == p.i && r % (PTRS + 1) == PTRS
  {
    if p.Data? && p.l >= NDIRECT + PTRS {
      var m := p.l - NDIRECT - PTRS;
      DivModOf(m / PTRS, m % PTRS);
    } else if p.Mid? {
      DivModOf(p.i, PTRS);
    }
  }

  lemma DivModOf(a: nat, b: nat)
    requires b <= PTRS
    ensures (a * (PTRS + 1) + b) / (PTRS + 1) == a && (a * (PTRS + 1) + b) % (PTRS + 1) == b
  {
  }

  /** What is still owned once the blocks of `ino` ranked below `r` are freed. */
  ghost function Left(own: map<nat, Owner>, ino: nat, r: nat): map<nat, Owner> {
    map b | b in own && !(own[b].ino == ino && Rank(own[b].pos) < r) :: own[b]
  }

  lemma LeftStart(own: map<nat, Owner>, ino: nat)
    ensures Left(own, ino, 0) == own
  {
  }

  /** Freeing the block at the position ranked `Rank(pos)`, or finding none there. */
  lemma LeftStep(disk: seq<Block>, inodes: map<nat, Inode>, own: map<nat, Owner>, ino: nat, pos: Pos)
    requires TreeOk(disk, inodes, own) && ino in inodes && PosOk(pos)
    ensures Left(own, ino, Rank(pos) + 1) == Left(own, ino, Rank(pos)) - {At(disk, inodes[ino], pos)}
    ensures At(disk, inodes[ino], pos) != 0 ==> At(disk, inodes[ino], pos) in Left(own, ino, Rank(pos))
    ensures At(disk, inodes[ino], pos) == 0 ==> Left(own, ino, Rank(pos) + 1) == Left(own, ino, Rank(pos))
  {
    hide At, Rank;
    Owned(disk, inodes, own, ino, pos);
    forall b | b in own && own[b].ino == ino && Rank(own[b].pos) == Rank(pos)
      ensures b == At(disk, inodes[ino], pos)
    {
      RankInjective(own[b].pos, pos);
    }
    assert 0 !in own;
  }

  /** Nothing is at the positions ranked from `r` to `s`: they need no freeing. */
  lemma LeftSkip(disk: seq<Block>, inodes: map<nat, Inode>, own: map<nat, Owner>, ino: nat, r: nat, s: nat)
    requires TreeOk(disk, inodes, own) && ino in inodes && r <= s
    requires forall pos :: PosOk(pos) && r <= Rank(pos) < s ==> At(disk, inodes[ino], pos) == 0
    ensures Left(own, ino, s) == Left(own, ino, r)
  {
    hide At, Rank;
    forall b | b in own && own[b].ino == ino ensures !(r <= Rank(own[b].pos) < s) {
      assert At(disk, inodes[ino], own[b].pos) == b;
      assert b > 0;
    }
  }

  function Cleared(di: Inode): Inode { Inode(di.links, 0, 0, seq(NDIRECT, _ => 0), 0, 0) }

  lemma ClearedAt(disk: seq<Block>, di: Inode, pos: Pos)
    ensures At(disk, Cleared(di), pos) == 0
  {
  }

  /** With all its blocks freed, the inode is cleared and the others are as they were. */
  lemma FreedAll(disk: seq<Block>, inodes: map<nat, Inode>, own: map<nat, Owner>, ino: nat)
    requires TreeOk(disk, inodes, own) && CountOk(inodes, own) && ino in inodes
    ensures TreeOk(disk, inodes[ino := Cleared(inodes[ino])], Left(own, ino, LAST_RANK))
    ensures CountOk(inodes[ino := Cleared(inodes[ino])], Left(own, ino, LAST_RANK))
    ensures BlocksOf(Left(own, ino, LAST_RANK), ino) == {}
    ensures Left(own, ino, LAST_RANK).Keys == own.Keys - BlocksOf(own, ino)
  {
    hide At, Rank;
    var own', inodes' := Left(own, ino, LAST_RANK), inodes[ino := Cleared(inodes[ino])];
    forall b | b in own ensures Rank(own[b].pos) < LAST_RANK { RankForm(own[b].pos); }
    forall pos ensures At(disk, inodes'[ino], pos) == 0 { ClearedAt(disk, inodes[ino], pos); }
    forall j | j in inodes && j != ino ensures BlocksOf(own', j) == BlocksOf(own, j) {}
  }
}
