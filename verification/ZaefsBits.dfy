/** zaefs bitmaps: one bit per block or inode, packed in the bytes of consecutive disk blocks
    (kernel/fs/zaefs.c:97-173). */
module ZaefsBits {
  import opened ZaefsBytes
  import opened ZaefsTree

  const BITS: nat := 32768

  // ---- bits of a byte --------------------------------------------------------------------------

  function P2(k: nat): nat { if k == 0 then 1 else 2 * P2(k - 1) }

  predicate BitOf(x: nat, k: nat) { if k == 0 then x % 2 == 1 else BitOf(x / 2, k - 1) }

  /** `x | 1 << k` and `x & ~(1 << k)`. */
  function OrBit(x: Byte, k: nat): Byte
    requires k < 8
  {
    if BitOf(x, k) then x
    else
      SumBelow(x, k, 8);
      assert P2(8) == 256;
      x + P2(k)
  }

  function ClearBit(x: Byte, k: nat): Byte
    requires k < 8
  {
    if BitOf(x, k) then
      PowerBelow(x, k);
      x - P2(k)
    else x
  }

  lemma {:induction false} SumBelow(x: nat, k: nat, n: nat)
    requires k < n && x < P2(n) && !BitOf(x, k)
    ensures x + P2(k) < P2(n)
  {
    if k > 0 { SumBelow(x / 2, k - 1, n - 1); }
  }

  lemma {:induction false} PowerBelow(x: nat, k: nat)
    requires BitOf(x, k)
    ensures P2(k) <= x && !BitOf(x - P2(k), k)
  {
    if k > 0 {
      PowerBelow(x / 2, k - 1);
      assert (x - P2(k)) / 2 == x / 2 - P2(k - 1);
    }
  }

  /** Setting a clear bit carries into no other bit. */
  lemma {:induction false} AddPower(x: nat, k: nat, j: nat)
    requires !BitOf(x, k)
    ensures BitOf(x + P2(k), j) == (j == k || BitOf(x, j))
  {
    if k > 0 && j > 0 {
      AddPower(x / 2, k - 1, j - 1);
      assert (x + P2(k)) / 2 == x / 2 + P2(k - 1);
    } else if k == 0 && j > 0 {
      assert (x + 1) / 2 == x / 2;
    }
  }

  lemma OrBitOf(x: Byte, k: nat, j: nat)
    requires k < 8
    ensures BitOf(OrBit(x, k), j) == (j == k || BitOf(x, j))
  {
    if !BitOf(x, k) { AddPower(x, k, j); }
  }

  lemma ClearBitOf(x: Byte, k: nat, j: nat)
    requires k < 8
    ensures BitOf(ClearBit(x, k), j) == (j != k && BitOf(x, j))
  {
    if BitOf(x, k) {
      PowerBelow(x, k);
      AddPower(x - P2(k), k, j);
    }
  }

  // ---- bits of the disk ------------------------------------------------------------------------

  predicate BlockBit(b: Block, i: nat)
    requires i < BITS
  {
    BitOf(b[i / 8], i % 8)
  }

  function OrBlock(b: Block, i: nat): Block
    requires i < BITS
  {
    b[i / 8 := OrBit(b[i / 8], i % 8)]
  }

  function ClearBlock(b: Block, i: nat): Block
    requires i < BITS
  {
    b[i / 8 := ClearBit(b[i / 8], i % 8)]
  }

  lemma OrBlockBit(b: Block, i: nat, j: nat)
    requires i < BITS && j < BITS
    ensures BlockBit(OrBlock(b, i), j) == (j == i || BlockBit(b, j))
  {
    hide BitOf, OrBit;
    if i / 8 == j / 8 { OrBitOf(b[i / 8], i % 8, j % 8); }
  }

  lemma ClearBlockBit(b: Block, i: nat, j: nat)
    requires i < BITS && j < BITS
    ensures BlockBit(ClearBlock(b, i), j) == (j != i && BlockBit(b, j))
  {
    hide BitOf, ClearBit;
    if i / 8 == j / 8 { ClearBitOf(b[i / 8], i % 8, j % 8); }
  }

  /** Bit `i` of the bitmap that starts at block `start`. */
  predicate BitAt(disk: seq<Block>, start: nat, i: nat) {
    start + i / BITS < |disk| && BlockBit(disk[start + i / BITS], i % BITS)
  }

  function SetBit(disk: seq<Block>, start: nat, i: nat): seq<Block>
    requires start + i / BITS < |disk|
  {
    disk[start + i / BITS := OrBlock(disk[start + i / BITS], i % BITS)]
  }

  function UnsetBit(disk: seq<Block>, start: nat, i: nat): seq<Block>
    requires start + i / BITS < |disk|
  {
    disk[start + i / BITS := ClearBlock(disk[start + i / BITS], i % BITS)]
  }

  lemma SetBitAt(disk: seq<Block>, start: nat, i: nat, j: nat)
    requires start + i / BITS < |disk|
    ensures BitAt(SetBit(disk, start, i), start, j) == (j == i || BitAt(disk, start, j))
  {
    hide BlockBit, OrBlock;
    if i / BITS == j / BITS { OrBlockBit(disk[start + i / BITS], i % BITS, j % BITS); }
  }

  lemma UnsetBitAt(disk: seq<Block>, start: nat, i: nat, j: nat)
    requires start + i / BITS < |disk|
    ensures BitAt(UnsetBit(disk, start, i), start, j) == (j != i && BitAt(disk, start, j))
  {
    hide BlockBit, ClearBlock;
    if i / BITS == j / BITS { ClearBlockBit(disk[start + i / BITS], i % BITS, j % BITS); }
  }
}
