/** zaefs blocks as bytes, and the little-endian fields in them (include/abi/zaefs.h). */
module ZaefsBytes {
  const BS: nat := 4096

  type Byte = x: int | 0 <= x < 256

  function U16(b: seq<Byte>, at: nat): nat
    requires at + 2 <= |b|
  {
    b[at] as int + 0x100 * (b[at + 1] as int)
  }

  function U32(b: seq<Byte>, at: nat): nat
    requires at + 4 <= |b|
  {
    U16(b, at) + 0x1_0000 * U16(b, at + 2)
  }

  predicate Agree(b: seq<Byte>, c: seq<Byte>, lo: nat, hi: nat) {
    |b| == BS && |c| == BS && hi <= BS && forall k :: lo <= k < hi ==> b[k] == c[k]
  }

  method PutU16(blk: array<Byte>, at: nat, v: nat)
    requires blk.Length == BS && at + 2 <= BS && v < 0x1_0000
    modifies blk
    ensures U16(blk[..], at) == v
    ensures Agree(old(blk[..]), blk[..], 0, at) && Agree(old(blk[..]), blk[..], at + 2, BS)
  {
    blk[at] := v % 0x100;
    blk[at + 1] := v / 0x100;
  }

  method PutU32(blk: array<Byte>, at: nat, v: nat)
    requires blk.Length == BS && at + 4 <= BS && v < 0x1_0000_0000
    modifies blk
    ensures U32(blk[..], at) == v
    ensures Agree(old(blk[..]), blk[..], 0, at) && Agree(old(blk[..]), blk[..], at + 4, BS)
  {
    hide U16;
    PutU16(blk, at, v % 0x1_0000);
    ghost var b := blk[..];
    PutU16(blk, at + 2, v / 0x1_0000);
    U16Same(b, blk[..], at);
  }

  lemma U16Same(b: seq<Byte>, c: seq<Byte>, at: nat)
    requires |b| == |c| == BS && at + 2 <= BS && Agree(b, c, at, at + 2)
    ensures U16(b, at) == U16(c, at)
  {
  }

  lemma U32Same(b: seq<Byte>, c: seq<Byte>, at: nat)
    requires |b| == |c| == BS && at + 4 <= BS && Agree(b, c, at, at + 4)
    ensures U32(b, at) == U32(c, at)
  {
  }

  method PutBytes(blk: array<Byte>, at: nat, bytes: seq<Byte>)
    requires blk.Length == BS && at + |bytes| <= BS
    modifies blk
    ensures blk[at..at + |bytes|] == bytes
    ensures Agree(old(blk[..]), blk[..], 0, at) && Agree(old(blk[..]), blk[..], at + |bytes|, BS)
  {
    for i := 0 to |bytes|
      invariant forall k :: 0 <= k < BS ==> blk[k] == if at <= k < at + i then bytes[k - at] else old(blk[k])
    {
      blk[at + i] := bytes[i];
    }
  }
}
