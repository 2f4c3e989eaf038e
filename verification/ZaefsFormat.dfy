/** The image builder: the layout it computes for a size, and the empty filesystem it writes
    (scripts/mkzaefs.py:27-47, 93-109), which the driver can mount. */
module ZaefsFormat {
  import opened ZaefsBytes
  import opened ZaefsTree
  import opened ZaefsBits
  import opened ZaefsFs

  const INODE_SIZE: nat := 128
  const ROOT_INO: nat := 1

  function BlocksFor(bits: nat): nat { (bits + BITS - 1) / BITS }

  function InodeCount(total: nat): nat { if total / 4 > 64 then total / 4 else 64 }

  function Layout(total: nat): Geometry {
    var inodeMap := 1 + BlocksFor(total);
    var inodeTable := inodeMap + BlocksFor(InodeCount(total));
    Geometry(total, 1, inodeMap, InodeCount(total), inodeTable + (InodeCount(total) * INODE_SIZE + BS - 1) / BS)
  }

  /** The layout is one the driver takes exactly if its metadata fits and block numbers are 32-bit. */
  lemma LayoutOk(total: nat)
    ensures GeoOk(Layout(total)) <==> Layout(total).dataStart <= total < 0x1_0000_0000
  {
  }

  /** It fits from five blocks on. */
  lemma LayoutFits(total: nat)
    ensures Layout(total).dataStart <= total <==> total >= 5
  {
  }

  lemma ZeroBits(disk: seq<Block>, start: nat, i: nat)
    requires forall b :: 0 <= b < |disk| ==> IsZero(disk[b])
    ensures !BitAt(disk, start, i)
  {
    if start + i / BITS < |disk| {
      assert IsZero(disk[start + i / BITS]);
      NoBit(i % BITS % 8);
    }
  }

  lemma {:induction false} NoBit(k: nat)
    ensures !BitOf(0, k)
  {
    if k > 0 { NoBit(k - 1); }
  }

  /** Setting a bit of one bitmap leaves the other alone. */
  lemma OtherMap(g: Geometry, disk: seq<Block>, i: nat, j: nat)
    requires GeoOk(g) && |disk| == g.total && i < g.total && j < g.inodeCount
    ensures g.bitmapStart + i / BITS < g.inodeMapStart && g.inodeMapStart + j / BITS < g.dataStart
    ensures BitAt(SetBit(disk, g.bitmapStart, i), g.inodeMapStart, j) == BitAt(disk, g.inodeMapStart, j)
    ensures BitAt(SetBit(disk, g.inodeMapStart, j), g.bitmapStart, i) == BitAt(disk, g.bitmapStart, i)
  {
    hide BlockBit, OrBlock;
    MapBlock(g, i);
    MapBlock(g, j);
  }

  /** The bits of all metadata blocks are set in the block bitmap, those of inode 0 and the root in the other. */
  method Bitmaps(g: Geometry) returns (disk: seq<Block>)
    requires GeoOk(g) && g.inodeCount > ROOT_INO
    ensures |disk| == g.total
    ensures forall b: nat :: b < g.total ==> (BitAt(disk, g.bitmapStart, b) <==> b < g.dataStart)
    ensures forall i: nat :: i < g.inodeCount ==> (BitAt(disk, g.inodeMapStart, i) <==> i <= ROOT_INO)
  {
    hide GeoOk;
    ZeroIsZero();
    disk := BlockMap(g);
    disk := InodeMap(g, disk, 0);
    disk := InodeMap(g, disk, 1);
  }

  method BlockMap(g: Geometry) returns (disk: seq<Block>)
    requires GeoOk(g)
    ensures |disk| == g.total
    ensures forall b: nat :: b < g.total ==> (BitAt(disk, g.bitmapStart, b) <==> b < g.dataStart)
    ensures forall i: nat :: i < g.inodeCount ==> !BitAt(disk, g.inodeMapStart, i)
  {
    hide BitAt, SetBit;
    ZeroIsZero();
    disk := seq(g.total, _ => ZERO);
    forall b: nat ensures !BitAt(disk, g.bitmapStart, b) { ZeroBits(disk, g.bitmapStart, b); }
    forall i: nat ensures !BitAt(disk, g.inodeMapStart, i) { ZeroBits(disk, g.inodeMapStart, i); }
    for n := 0 to g.dataStart
      invariant |disk| == g.total
      invariant forall b: nat :: b < g.total ==> (BitAt(disk, g.bitmapStart, b) <==> b < n)
      invariant forall i: nat :: i < g.inodeCount ==> !BitAt(disk, g.inodeMapStart, i)
    {
      MapBlock(g, n);
      forall b: nat | b < g.total
        ensures BitAt(SetBit(disk, g.bitmapStart, n), g.bitmapStart, b) <==> b <= n
      {
        SetBitAt(disk, g.bitmapStart, n, b);
      }
      forall i: nat | i < g.inodeCount ensures !BitAt(SetBit(disk, g.bitmapStart, n), g.inodeMapStart, i) {
        OtherMap(g, disk, n, i);
      }
      SetBitLength(disk, g.bitmapStart, n);
      disk := SetBit(disk, g.bitmapStart, n);
    }
  }

  method InodeMap(g: Geometry, before: seq<Block>, n: nat) returns (disk: seq<Block>)
    requires GeoOk(g) && |before| == g.total && n < g.inodeCount
    requires forall b: nat :: b < g.total ==> (BitAt(before, g.bitmapStart, b) <==> b < g.dataStart)
    requires forall i: nat :: i < g.inodeCount ==> (BitAt(before, g.inodeMapStart, i) <==> i < n)
    ensures |disk| == g.total
    ensures forall b: nat :: b < g.total ==> (BitAt(disk, g.bitmapStart, b) <==> b < g.dataStart)
    ensures forall i: nat :: i < g.inodeCount ==> (BitAt(disk, g.inodeMapStart, i) <==> i <= n)
  {
    hide BitAt, SetBit;
    MapBlock(g, n);
    SetBitLength(before, g.inodeMapStart, n);
    disk := SetBit(before, g.inodeMapStart, n);
    forall i: nat | i < g.inodeCount ensures BitAt(disk, g.inodeMapStart, i) <==> i <= n {
      SetBitAt(before, g.inodeMapStart, n, i);
    }
    forall b: nat | b < g.total ensures BitAt(disk, g.bitmapStart, b) <==> b < g.dataStart {
      OtherMap(g, before, b, n);
    }
  }

  /** An image of an empty tree, mounted: the root inode is there, empty, and all data blocks are free. */
  method Mkfs(total: nat) returns (fs: Zaefs)
    requires 5 <= total < 0x1_0000_0000
    ensures fresh(fs) && fs.Valid() && fs.geo == Layout(total) && fs.held == map[]
    ensures fs.inodes == map[ROOT_INO := NewInode()] && fs.own == map[]
    ensures fs.freeBlocks == total - Layout(total).dataStart && fs.freeInodes == InodeCount(total) - 2
  {
    LayoutFits(total);
    LayoutOk(total);
    var g := Layout(total);
    assert g.total == total && g.inodeCount == InodeCount(total) >= 64;
    hide GeoOk, Layout;
    var disk := Bitmaps(g);
    var itable := map[ROOT_INO := NewInode()];
    EmptyRoot(g, disk);
    fs := new Zaefs(g, disk, total - g.dataStart, g.inodeCount - 2, itable, map[]);
  }

  lemma EmptyRoot(g: Geometry, disk: seq<Block>)
    requires |disk| == g.total && g.dataStart <= g.total && g.inodeCount >= 64
    requires forall b: nat :: b < g.total ==> (BitAt(disk, g.bitmapStart, b) <==> b < g.dataStart)
    requires forall i: nat :: i < g.inodeCount ==> (BitAt(disk, g.inodeMapStart, i) <==> i <= ROOT_INO)
    ensures BlockBits(g, disk, map[], g.total - g.dataStart)
    ensures InodeBits(g, disk, map[ROOT_INO := NewInode()].Keys, g.inodeCount - 2)
    ensures TreeOk(disk, map[ROOT_INO := NewInode()], map[]) && CountOk(map[ROOT_INO := NewInode()], map[])
    ensures TailsZero(disk, map[ROOT_INO := NewInode()]) && NewInode().links > 0
  {
    hide BitAt, TreeOk, CountOk, TailsZero;
    NoInodes(disk);
    NewInodeTree(disk, map[], map[], ROOT_INO);
    assert map[][ROOT_INO := NewInode()] == map[ROOT_INO := NewInode()];
    assert map[ROOT_INO := NewInode()].Keys == {ROOT_INO};
  }

  lemma NoInodes(disk: seq<Block>)
    ensures TreeOk(disk, map[], map[]) && CountOk(map[], map[]) && TailsZero(disk, map[])
  {
  }
}
