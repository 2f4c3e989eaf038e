/** Key wrap as section 2.2.1 of RFC 3394 writes it, with its two loops and numbers in place of bytes, and that it
    is what unwrapping is proved against (kernel/lib/crypto.c:208-227). */
module KeyWrapRfc {
  import opened Division
  import opened Gf256
  import opened AesTables
  import opened AesBlock
  import opened Aes
  import opened KeyWrap

  /** The number `v` in `m` bytes, most significant first. */
  function ToBytes(v: nat, m: nat): (s: seq<u8>)
    ensures |s| == m
  {
    if m == 0 then [] else ToBytes(v / 256, m - 1) + [Byte(v % 256)]
  }

  const DEFAULT_IV: nat := 0xA6A6_A6A6_A6A6_A6A6

  /** B = AES(K, A | R[i]); A = MSB(64, B) ^ t; R[i] = LSB(64, B). */
  ghost function RfcStep(k: Key, n: nat, t: nat, i: nat, x: Regs): (y: Regs)
    requires KeyOk(k) && RegsOk(x, n) && 1 <= i <= n
    ensures RegsOk(y, n)
  {
    var b := Enc(k, x.a + x.r[8 * (i - 1)..8 * i]);
    Regs(Xor8(b[..8], ToBytes(t, 8)), x.r[..8 * (i - 1)] + b[8..] + x.r[8 * i..])
  }

  /** The number of step `i` of round `j`. */
  function StepNo(n: nat, j: nat, i: nat): nat { n * j + i }

  /** For i = 1 to m, in round j. */
  ghost function RfcInner(k: Key, n: nat, j: nat, m: nat, x: Regs): (y: Regs)
    requires KeyOk(k) && RegsOk(x, n) && m <= n
    ensures RegsOk(y, n)
  {
    if m == 0 then x else RfcStep(k, n, StepNo(n, j, m), m, RfcInner(k, n, j, m - 1, x))
  }

  /** For j = 0 to m - 1. */
  ghost function RfcOuter(k: Key, n: nat, m: nat, x: Regs): (y: Regs)
    requires KeyOk(k) && RegsOk(x, n)
    ensures RegsOk(y, n)
  {
    if m == 0 then x else RfcInner(k, n, m - 1, n, RfcOuter(k, n, m - 1, x))
  }

  // ---- numbers -------------------------------------------------------------------------------------

  /** `v` without its last `k` bytes. */
  function Shift(v: nat, k: nat): nat { if k == 0 then v else Shift(v / 256, k - 1) }

  lemma {:induction false} ToBytesAt(v: nat, m: nat, i: nat)
    requires i < m
    ensures ToBytes(v, m)[i] == Byte(Shift(v, m - 1 - i) % 256)
  {
    hide Byte;
    if i < m - 1 { ToBytesAt(v / 256, m - 1, i); }
  }

  lemma ShiftIs(v: nat, k: nat)
    requires k < 8
    ensures Shift(v, k) == v / Pow256(k)
  {
    PowersOf256();
    hide Pow256, Shift;
    if k == 0 { Shift0(v); } else if k == 1 { Shift1(v); } else if k == 2 { Shift2(v); } else if k == 3 { Shift3(v); }
    else if k == 4 { Shift4(v); } else if k == 5 { Shift5(v); } else if k == 6 { Shift6(v); } else { Shift7(v); }
  }

  lemma PowersOf256()
    ensures Pow256(0) == 1 && Pow256(1) == 0x100 && Pow256(2) == 0x1_0000 && Pow256(3) == 0x100_0000
    ensures Pow256(4) == 0x1_0000_0000 && Pow256(5) == 0x100_0000_0000 && Pow256(6) == 0x1_0000_0000_0000
    ensures Pow256(7) == 0x100_0000_0000_0000
  {
  }

  lemma Shift0(v: nat)
    ensures Shift(v, 0) == v
  {
  }

  lemma Shift1(v: nat)
    ensures Shift(v, 1) == v / 0x100
  {
    Shift0(v / 256);
  }

  lemma Shift2(v: nat)
    ensures Shift(v, 2) == v / 0x1_0000
  {
    Shift1(v / 256);
  }

  lemma Shift3(v: nat)
    ensures Shift(v, 3) == v / 0x100_0000
  {
    Shift2(v / 256);
  }

  lemma Shift4(v: nat)
    ensures Shift(v, 4) == v / 0x1_0000_0000
  {
    Shift3(v / 256);
  }

  lemma Shift5(v: nat)
    ensures Shift(v, 5) == v / 0x100_0000_0000
  {
    Shift4(v / 256);
  }

  lemma Shift6(v: nat)
    ensures Shift(v, 6) == v / 0x1_0000_0000_0000
  {
    Shift5(v / 256);
  }

  lemma Shift7(v: nat)
    ensures Shift(v, 7) == v / 0x100_0000_0000_0000
  {
    Shift6(v / 256);
  }

  lemma CounterIs(t: nat)
    ensures Counter(t) == ToBytes(t, 8)
  {
    hide Byte, ToBytes, Shift, Counter;
    forall i | 0 <= i < 8 ensures Counter(t)[i] == ToBytes(t, 8)[i] {
      ToBytesAt(t, 8, i);
      CounterAt(t, i);
    }
  }

  lemma CounterAt(t: nat, i: nat)
    requires i < 8
    ensures Counter(t)[i] == Byte(Shift(t, 7 - i) % 256)
  {
    hide Byte, Pow256, Shift;
    ShiftIs(t, 7 - i);
  }

  lemma IvIs()
    ensures Iv() == ToBytes(DEFAULT_IV, 8)
  {
    hide ToBytes;
    NextByte(0, 0);
    NextByte(0xA6, 1);
    NextByte(0xA6A6, 2);
    NextByte(0xA6_A6A6, 3);
    NextByte(0xA6A6_A6A6, 4);
    NextByte(0xA6_A6A6_A6A6, 5);
    NextByte(0xA6A6_A6A6_A6A6, 6);
    NextByte(0xA6_A6A6_A6A6_A6A6, 7);
    assert ToBytes(0, 0) == [];
  }

  lemma NextByte(v: nat, m: nat)
    ensures ToBytes(256 * v + 0xA6, m + 1) == ToBytes(v, m) + [0xA6]
  {
    assert Byte(0xA6) == 0xA6 by { ByteNum(0xA6); }
    hide Byte;
    assert (256 * v + 0xA6) / 256 == v && (256 * v + 0xA6) % 256 == 0xA6;
  }

  // ---- the loops -----------------------------------------------------------------------------------

  lemma UpIsStep(k: Key, n: nat, j: nat, i: nat, x: Regs)
    requires KeyOk(k) && RegsOk(x, n) && 1 <= i <= n
    ensures StepNo(n, j, i) > 0 && Up(k, n, StepNo(n, j, i), x) == RfcStep(k, n, StepNo(n, j, i), i, x)
  {
    StepPlace(n, j, i);
    hide KeyOk, Enc, Xor8, Counter, ToBytes, StepNo, Index;
    CounterIs(StepNo(n, j, i));
  }

  lemma StepPlace(n: nat, j: nat, i: nat)
    requires 1 <= i <= n
    ensures StepNo(n, j, i) > 0 && Index(n, StepNo(n, j, i)) == i - 1
  {
    ModOf(n, j, i - 1);
  }

  lemma StepNext(n: nat, j: nat, i: nat)
    ensures i > 0 ==> StepNo(n, j, i) == StepNo(n, j, i - 1) + 1
    ensures j > 0 ==> StepNo(n, j - 1, n) == StepNo(n, j, 0)
    ensures StepNo(n, 0, 0) == 0 && StepNo(n, 6, 0) == 6 * n
  {
    if j > 0 { assert n * j == n * (j - 1) + n; }
  }

  lemma {:induction false} UpToIsInner(k: Key, n: nat, j: nat, m: nat, x: Regs)
    requires KeyOk(k) && RegsOk(x, n) && n > 0 && m <= n
    requires UpTo(k, n, StepNo(n, j, 0), x) == RfcOuter(k, n, j, x)
    ensures UpTo(k, n, StepNo(n, j, m), x) == RfcInner(k, n, j, m, RfcOuter(k, n, j, x))
  {
    hide KeyOk, Up, RfcStep, RfcOuter, StepNo;
    if m > 0 {
      UpToIsInner(k, n, j, m - 1, x);
      StepNext(n, j, m);
      UpIsStep(k, n, j, m, UpTo(k, n, StepNo(n, j, m - 1), x));
    }
  }

  lemma {:induction false} UpToIsOuter(k: Key, n: nat, j: nat, x: Regs)
    requires KeyOk(k) && RegsOk(x, n) && n > 0
    ensures UpTo(k, n, StepNo(n, j, 0), x) == RfcOuter(k, n, j, x)
  {
    hide KeyOk, Up, RfcInner, StepNo;
    StepNext(n, j, 0);
    if j > 0 {
      UpToIsOuter(k, n, j - 1, x);
      UpToIsInner(k, n, j - 1, n, x);
    }
  }

  /** Wrapping is the standard's. */
  lemma WrapIsRfc(k: Key, plain: seq<u8>, n: nat)
    requires KeyOk(k) && |plain| == 8 * n && n > 0
    ensures var y := RfcOuter(k, n, 6, Regs(ToBytes(DEFAULT_IV, 8), plain));
            Wrap(k, plain, n) == y.a + y.r
  {
    hide KeyOk, UpTo, RfcOuter, ToBytes, StepNo;
    IvIs();
    StepNext(n, 6, 0);
    UpToIsOuter(k, n, 6, Regs(Iv(), plain));
  }
}
