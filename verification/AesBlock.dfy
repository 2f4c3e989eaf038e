/** AES-128 on blocks of 16 bytes: the rounds of encryption and decryption, and that the second undo
    the first for all round keys (kernel/lib/crypto.c:167-206; sections 5.1 and 5.3 of FIPS 197). */
module AesBlock {
  import opened Gf256
  import opened AesTables

  // ---- one column ------------------------------------------------------------------------------

  /** What mixing puts where `a` was, with `b`, `c`, `d` the bytes below it, cyclically. */
  function MixOf(a: u8, b: u8, c: u8, d: u8): u8 { Add(Add(a, Add(Add(Add(a, b), c), d)), Xt(Add(a, b))) }

  function UnmixOf(a: u8, b: u8, c: u8, d: u8): u8 { Sum4(Mul(a, 14), Mul(b, 11), Mul(c, 13), Mul(d, 9)) }

  function Sum4(a: u8, b: u8, c: u8, d: u8): u8 { Add(Add(a, b), Add(c, d)) }

  lemma Rotate(a: u8, b: u8, c: u8, d: u8)
    ensures Sum4(b, c, d, a) == Sum4(a, b, c, d)
  {
    hide Add;
    AddLaws(Add(b, c), d, a);
    AddLaws(b, c, Add(d, a));
    AddLaws(c, d, a);
    AddLaws(Add(c, d), a, b);
    AddLaws(b, Add(c, d), a);
    AddLaws(a, b, Add(c, d));
    AddLaws(b, a, Add(c, d));
    AddLaws(a, Add(c, d), 0);
  }

  lemma SumRows(a: u8, b: u8, c: u8, d: u8, p: u8, q: u8, r: u8, s: u8)
    ensures Add(Sum4(a, b, c, d), Sum4(p, q, r, s)) == Sum4(Add(a, p), Add(b, q), Add(c, r), Add(d, s))
  {
    hide Add;
    Swap4(Add(a, b), Add(c, d), Add(p, q), Add(r, s));
    Swap4(a, b, p, q);
    Swap4(c, d, r, s);
  }

  /** A mixed byte times `k`, in terms of the bytes it was mixed from. */
  lemma MulMix(a: u8, b: u8, c: u8, d: u8, k: u8)
    ensures Mul(MixOf(a, b, c, d), k) == Sum4(Mul(a, Xt(k)), Mul(b, Times3(k)), Mul(c, k), Mul(d, k))
  {
    hide Xt, Add, Mul, MixOf;
    MixIsSum(a, b, c, d);
    MulLinear(Add(Xt(a), Times3(b)), Add(c, d), k);
    MulLinear(Xt(a), Times3(b), k);
    MulLinear(c, d, k);
    MulXt(a, k);
    MulLinear(b, Xt(b), k);
    MulXt(b, k);
    MulLinear2(b, k, Xt(k));
  }

  lemma MixIsSum(a: u8, b: u8, c: u8, d: u8)
    ensures MixOf(a, b, c, d) == Sum4(Xt(a), Times3(b), c, d)
  {
    hide Xt, Add;
    XtLinear(a, b);
    MixReorder(a, b, c, d, Xt(a), Xt(b));
  }

  lemma MixReorder(a: u8, b: u8, c: u8, d: u8, x: u8, y: u8)
    ensures Add(Add(a, Add(Add(Add(a, b), c), d)), Add(x, y)) == Add(Add(x, Add(b, y)), Add(c, d))
  {
    hide Add;
    AddLaws(a, b, c);
    AddLaws(a, Add(b, c), d);
    AddLaws(Add(Add(b, c), d), a, a);
    AddLaws(a, Add(Add(b, c), d), 0);
    assert Add(a, Add(Add(Add(a, b), c), d)) == Add(Add(b, c), d) by {
      AddLaws(a, a, Add(Add(b, c), d));
      AddLaws(Add(Add(b, c), d), 0, 0);
    }
    AddLaws(b, c, d);
    Swap4(b, Add(c, d), y, x);
    AddLaws(x, y, 0);
    AddLaws(Add(b, y), Add(c, d), x);
    AddLaws(Add(b, y), x, Add(c, d));
    AddLaws(x, Add(c, d), 0);
    AddLaws(x, Add(b, y), 0);
  }

  lemma MulSum4(p: u8, i: u8, j: u8, k: u8, l: u8)
    ensures Sum4(Mul(p, i), Mul(p, j), Mul(p, k), Mul(p, l)) == Mul(p, Sum4(i, j, k, l))
  {
    hide Add, Mul;
    MulLinear2(p, i, j);
    MulLinear2(p, k, l);
    MulLinear2(p, Add(i, j), Add(k, l));
  }

  /** Unmixing a mixed column gives the column back: the coefficients add up to 1, 0, 0 and 0. */
  lemma UnmixMix(a: u8, b: u8, c: u8, d: u8)
    ensures UnmixOf(MixOf(a, b, c, d), MixOf(b, c, d, a), MixOf(c, d, a, b), MixOf(d, a, b, c)) == a
  {
    Coefficients();
    hide Xt, Add, Mul, MixOf, Times3, Sum4;
    MulMix(a, b, c, d, 14);
    MulMix(b, c, d, a, 11);
    MulMix(c, d, a, b, 13);
    MulMix(d, a, b, c, 9);
    Rotate(Mul(a, 11), Mul(b, 22), Mul(c, 29), Mul(d, 11));
    Rotate(Mul(b, 13), Mul(c, 26), Mul(d, 23), Mul(a, 13));
    Rotate(Mul(a, 13), Mul(b, 13), Mul(c, 26), Mul(d, 23));
    Rotate(Mul(d, 18), Mul(a, 27), Mul(b, 9), Mul(c, 9));
    Columns(Mul(a, 28), Mul(b, 18), Mul(c, 14), Mul(d, 14), Mul(a, 11), Mul(b, 22), Mul(c, 29), Mul(d, 11),
            Mul(a, 13), Mul(b, 13), Mul(c, 26), Mul(d, 23), Mul(a, 27), Mul(b, 9), Mul(c, 9), Mul(d, 18));
    MulSum4(a, 28, 11, 13, 27);
    MulSum4(b, 18, 22, 13, 9);
    MulSum4(c, 14, 29, 26, 9);
    MulSum4(d, 14, 11, 23, 18);
    MulOne(a);
    MulZero(b); MulZero(c); MulZero(d);
    SumZero(a);
  }

  lemma MulZero(a: u8)
    ensures Mul(a, 0) == 0
  {
    hide Xt, Add;
  }

  lemma SumZero(a: u8)
    ensures Sum4(a, 0, 0, 0) == a
  {
  }

  lemma Coefficients()
    ensures Xt(14) == 28 && Times3(14) == 18 && Xt(11) == 22 && Times3(11) == 29
    ensures Xt(13) == 26 && Times3(13) == 23 && Xt(9) == 18 && Times3(9) == 27
    ensures Sum4(28, 11, 13, 27) == 1 && Sum4(18, 22, 13, 9) == 0 && Sum4(14, 29, 26, 9) == 0
    ensures Sum4(14, 11, 23, 18) == 0
  {
  }

  lemma Coefficients2()
    ensures Sum4(28, 27, 13, 11) == 1 && Sum4(22, 18, 9, 13) == 0 && Sum4(26, 29, 14, 9) == 0
    ensures Sum4(18, 23, 11, 14) == 0
  {
  }

  /** Adding four rows is adding up the columns. */
  lemma Columns(a: u8, b: u8, c: u8, d: u8, a1: u8, b1: u8, c1: u8, d1: u8, a2: u8, b2: u8, c2: u8, d2: u8, a3: u8,
                b3: u8, c3: u8, d3: u8)
    ensures Sum4(Sum4(a, b, c, d), Sum4(a1, b1, c1, d1), Sum4(a2, b2, c2, d2), Sum4(a3, b3, c3, d3))
            == Sum4(Sum4(a, a1, a2, a3), Sum4(b, b1, b2, b3), Sum4(c, c1, c2, c3), Sum4(d, d1, d2, d3))
  {
    hide Add;
    SumRows(a, b, c, d, a1, b1, c1, d1);
    SumRows(a2, b2, c2, d2, a3, b3, c3, d3);
    SumRows(Add(a, a1), Add(b, b1), Add(c, c1), Add(d, d1), Add(a2, a3), Add(b2, b3), Add(c2, c3), Add(d2, d3));
  }

  /** And mixing an unmixed one. */
  lemma MixUnmix(a: u8, b: u8, c: u8, d: u8)
    ensures MixOf(UnmixOf(a, b, c, d), UnmixOf(b, c, d, a), UnmixOf(c, d, a, b), UnmixOf(d, a, b, c)) == a
  {
    Coefficients2();
    hide Xt, Add, Mul, MixOf, Times3, Sum4, UnmixOf;
    MixIsSum(UnmixOf(a, b, c, d), UnmixOf(b, c, d, a), UnmixOf(c, d, a, b), UnmixOf(d, a, b, c));
    UnmixTimes(a, b, c, d);
    UnmixTimes(b, c, d, a);
    UnmixIs(c, d, a, b);
    UnmixIs(d, a, b, c);
    Rotate(Mul(a, 27), Mul(b, 18), Mul(c, 29), Mul(d, 23));
    Rotate(Mul(b, 9), Mul(c, 14), Mul(d, 11), Mul(a, 13));
    Rotate(Mul(a, 13), Mul(b, 9), Mul(c, 14), Mul(d, 11));
    Rotate(Mul(d, 14), Mul(a, 11), Mul(b, 13), Mul(c, 9));
    Columns(Mul(a, 28), Mul(b, 22), Mul(c, 26), Mul(d, 18), Mul(a, 27), Mul(b, 18), Mul(c, 29), Mul(d, 23),
            Mul(a, 13), Mul(b, 9), Mul(c, 14), Mul(d, 11), Mul(a, 11), Mul(b, 13), Mul(c, 9), Mul(d, 14));
    MulSum4(a, 28, 27, 13, 11);
    MulSum4(b, 22, 18, 9, 13);
    MulSum4(c, 26, 29, 14, 9);
    MulSum4(d, 18, 23, 11, 14);
    MulOne(a);
    MulZero(b); MulZero(c); MulZero(d);
    SumZero(a);
  }

  lemma UnmixIs(a: u8, b: u8, c: u8, d: u8)
    ensures UnmixOf(a, b, c, d) == Sum4(Mul(a, 14), Mul(b, 11), Mul(c, 13), Mul(d, 9))
  {
  }

  /** Twice and three times an unmixed byte. */
  lemma UnmixTimes(a: u8, b: u8, c: u8, d: u8)
    ensures Xt(UnmixOf(a, b, c, d)) == Sum4(Mul(a, 28), Mul(b, 22), Mul(c, 26), Mul(d, 18))
    ensures Times3(UnmixOf(a, b, c, d)) == Sum4(Mul(a, 18), Mul(b, 29), Mul(c, 23), Mul(d, 27))
  {
    Coefficients();
    hide Xt, Add, Mul;
    XtLinear(Add(Mul(a, 14), Mul(b, 11)), Add(Mul(c, 13), Mul(d, 9)));
    XtLinear(Mul(a, 14), Mul(b, 11));
    XtLinear(Mul(c, 13), Mul(d, 9));
    TimesOf(a, 14); TimesOf(b, 11); TimesOf(c, 13); TimesOf(d, 9);
    hide Times3;
    SumRows(Mul(a, 14), Mul(b, 11), Mul(c, 13), Mul(d, 9), Mul(a, 28), Mul(b, 22), Mul(c, 26), Mul(d, 18));
    Times3Is(UnmixOf(a, b, c, d));
  }

  lemma TimesOf(a: u8, k: u8)
    ensures Xt(Mul(a, k)) == Mul(a, Xt(k)) && Add(Mul(a, k), Mul(a, Xt(k))) == Mul(a, Times3(k))
  {
    hide Xt, Add, Mul;
    MulXtOut(a, k);
    MulXt(a, k);
    MulLinear2(a, k, Xt(k));
  }

  lemma Times3Is(a: u8)
    ensures Times3(a) == Add(a, Xt(a))
  {
  }

  // ---- blocks ----------------------------------------------------------------------------------

  type Block = s: seq<u8> | |s| == 16 witness seq(16, _ => 0)

  /** Where byte `i` of the shifted state comes from, and where byte `j` goes. */
  function Shift(i: nat): nat { (i + 4 * (i % 4)) % 16 }

  function Unshift(j: nat): nat { (j + 12 * (j % 4)) % 16 }

  lemma ShiftUnshift(i: nat)
    requires i < 16
    ensures Shift(i) < 16 && Unshift(i) < 16 && Shift(Unshift(i)) == i && Unshift(Shift(i)) == i
  {
    hide Shift, Unshift;
    var q, r := i / 4, i % 4;
    ShiftForm(q, r);
    ShiftForm(if q + r < 4 then q + r else q + r - 4, r);
    ShiftForm(if q >= r then q - r else q - r + 4, r);
  }

  /** Row `r` moves by `r` columns. */
  lemma ShiftForm(q: nat, r: nat)
    requires q < 4 && r < 4
    ensures Shift(4 * q + r) == if q + r < 4 then 4 * (q + r) + r else 4 * (q + r - 4) + r
    ensures Unshift(4 * q + r) == if q >= r then 4 * (q - r) + r else 4 * (q - r + 4) + r
  {
    assert (4 * q + r) % 4 == r;
    assert r == 0 || r == 1 || r == 2 || r == 3;
  }

  /** The byte `k` places below byte `i` in its column, cyclically. */
  function Below(i: nat, k: nat): nat { i / 4 * 4 + (i % 4 + k) % 4 }

  function SubShift(sb: seq<u8>, s: Block): Block
    requires |sb| == 256
  {
    seq(16, i requires 0 <= i < 16 => sb[Num(s[Shift(i)])])
  }

  function UnsubShift(isb: seq<u8>, s: Block): Block
    requires |isb| == 256
  {
    seq(16, i requires 0 <= i < 16 => isb[Num(s[Unshift(i)])])
  }

  function MixColumns(s: Block): Block {
    seq(16, i requires 0 <= i < 16 => MixOf(s[i], s[Below(i, 1)], s[Below(i, 2)], s[Below(i, 3)]))
  }

  function UnmixColumns(s: Block): Block {
    seq(16, i requires 0 <= i < 16 => UnmixOf(s[i], s[Below(i, 1)], s[Below(i, 2)], s[Below(i, 3)]))
  }

  function AddKey(s: Block, rk: seq<u8>, r: nat): Block
    requires |rk| == 176 && r <= 10
  {
    seq(16, i requires 0 <= i < 16 => Add(s[i], rk[16 * r + i]))
  }

  function Round(sb: seq<u8>, rk: seq<u8>, r: nat, s: Block): Block
    requires |sb| == 256 && |rk| == 176 && r <= 10
  {
    AddKey(if r < 10 then MixColumns(SubShift(sb, s)) else SubShift(sb, s), rk, r)
  }

  function Unround(isb: seq<u8>, rk: seq<u8>, r: nat, s: Block): Block
    requires |isb| == 256 && |rk| == 176 && r <= 10
  {
    UnsubShift(isb, if r < 10 then UnmixColumns(AddKey(s, rk, r)) else AddKey(s, rk, r))
  }

  /** The first `n` rounds of encryption, and the last ones of decryption. */
  function Rounds(sb: seq<u8>, rk: seq<u8>, n: nat, s: Block): Block
    requires |sb| == 256 && |rk| == 176 && n <= 10
  {
    if n == 0 then AddKey(s, rk, 0) else Round(sb, rk, n, Rounds(sb, rk, n - 1, s))
  }

  function Unrounds(isb: seq<u8>, rk: seq<u8>, n: nat, s: Block): Block
    requires |isb| == 256 && |rk| == 176 && n <= 10
  {
    if n == 0 then AddKey(s, rk, 0) else Unrounds(isb, rk, n - 1, Unround(isb, rk, n, s))
  }

  lemma BelowIs(i: nat, k: nat)
    requires i < 16 && k < 4
    ensures Below(i, k) < 16 && Below(i, 0) == i
    ensures Below(Below(i, k), 1) == Below(i, (k + 1) % 4) && Below(Below(i, k), 2) == Below(i, (k + 2) % 4)
    ensures Below(Below(i, k), 3) == Below(i, (k + 3) % 4)
  {
    hide Below;
    var q, r := i / 4, i % 4;
    BelowForm(q, r, 0);
    BelowForm(q, r, k);
    var s := Turn(r, k);
    BelowForm(q, s, 1); BelowForm(q, s, 2); BelowForm(q, s, 3);
    BelowForm(q, r, Turn(k, 1)); BelowForm(q, r, Turn(k, 2)); BelowForm(q, r, Turn(k, 3));
  }

  function Turn(r: nat, k: nat): nat { if r + k < 4 then r + k else if r + k < 8 then r + k - 4 else r + k - 8 }

  lemma BelowForm(q: nat, r: nat, k: nat)
    requires r < 4 && k < 4
    ensures Below(4 * q + r, k) == 4 * q + Turn(r, k) && (r + k) % 4 == Turn(r, k)
  {
    assert (4 * q + r) / 4 == q && (4 * q + r) % 4 == r;
  }

  lemma AddKeyTwice(s: Block, rk: seq<u8>, r: nat)
    requires |rk| == 176 && r <= 10
    ensures AddKey(AddKey(s, rk, r), rk, r) == s
  {
    hide Add;
    forall i | 0 <= i < 16 ensures AddKey(AddKey(s, rk, r), rk, r)[i] == s[i] { AddLaws(s[i], rk[16 * r + i], 0); }
  }

  lemma UnshiftShift(sb: seq<u8>, isb: seq<u8>, s: Block)
    requires Inverse(sb, isb)
    ensures UnsubShift(isb, SubShift(sb, s)) == s && SubShift(sb, UnsubShift(isb, s)) == s
  {
    hide Num, Shift, Unshift;
    forall i | 0 <= i < 16 ensures UnsubShift(isb, SubShift(sb, s))[i] == s[i] { ShiftUnshift(i); }
    forall i | 0 <= i < 16 ensures SubShift(sb, UnsubShift(isb, s))[i] == s[i] { ShiftUnshift(i); }
  }

  lemma ColumnsAt(s: Block, i: nat)
    requires i < 16
    ensures Below(i, 1) < 16 && Below(i, 2) < 16 && Below(i, 3) < 16
    ensures MixColumns(s)[i] == MixOf(s[i], s[Below(i, 1)], s[Below(i, 2)], s[Below(i, 3)])
    ensures UnmixColumns(s)[i] == UnmixOf(s[i], s[Below(i, 1)], s[Below(i, 2)], s[Below(i, 3)])
  {
    hide MixOf, UnmixOf;
  }

  /** The bytes below the byte below `i`. */
  lemma Around(i: nat)
    requires i < 16
    ensures Below(i, 1) < 16 && Below(i, 2) < 16 && Below(i, 3) < 16
    ensures Below(Below(i, 1), 1) == Below(i, 2) && Below(Below(i, 1), 2) == Below(i, 3) && Below(Below(i, 1), 3) == i
    ensures Below(Below(i, 2), 1) == Below(i, 3) && Below(Below(i, 2), 2) == i && Below(Below(i, 2), 3) == Below(i, 1)
    ensures Below(Below(i, 3), 1) == i && Below(Below(i, 3), 2) == Below(i, 1) && Below(Below(i, 3), 3) == Below(i, 2)
  {
    hide Below;
    BelowIs(i, 1);
    BelowIs(i, 2);
    BelowIs(i, 3);
  }

  lemma UnmixedAt(s: Block, i: nat)
    requires i < 16
    ensures UnmixColumns(MixColumns(s))[i] == s[i] && MixColumns(UnmixColumns(s))[i] == s[i]
  {
    hide MixOf, UnmixOf, Below, MixColumns, UnmixColumns;
    Around(i);
    ColumnsAt(s, i); ColumnsAt(s, Below(i, 1)); ColumnsAt(s, Below(i, 2)); ColumnsAt(s, Below(i, 3));
    ColumnsAt(MixColumns(s), i);
    ColumnsAt(UnmixColumns(s), i);
    UnmixMix(s[i], s[Below(i, 1)], s[Below(i, 2)], s[Below(i, 3)]);
    MixUnmix(s[i], s[Below(i, 1)], s[Below(i, 2)], s[Below(i, 3)]);
  }

  lemma UnmixMixed(s: Block)
    ensures UnmixColumns(MixColumns(s)) == s && MixColumns(UnmixColumns(s)) == s
  {
    hide MixColumns, UnmixColumns;
    var m, u := UnmixColumns(MixColumns(s)), MixColumns(UnmixColumns(s));
    forall i | 0 <= i < 16 ensures m[i] == s[i] && u[i] == s[i] { UnmixedAt(s, i); }
  }

  lemma UnroundRound(sb: seq<u8>, isb: seq<u8>, rk: seq<u8>, r: nat, s: Block)
    requires Inverse(sb, isb) && |sb| == 256 && |isb| == 256 && |rk| == 176 && r <= 10
    ensures Unround(isb, rk, r, Round(sb, rk, r, s)) == s && Round(sb, rk, r, Unround(isb, rk, r, s)) == s
  {
    hide Inverse, AddKey, SubShift, UnsubShift, MixColumns, UnmixColumns;
    UnshiftShift(sb, isb, s);
    AddKeyTwice(s, rk, r);
    AddKeyTwice(SubShift(sb, s), rk, r);
    AddKeyTwice(MixColumns(SubShift(sb, s)), rk, r);
    UnmixMixed(SubShift(sb, s));
    UnmixMixed(AddKey(s, rk, r));
    UnshiftShift(sb, isb, AddKey(s, rk, r));
    UnshiftShift(sb, isb, UnmixColumns(AddKey(s, rk, r)));
  }

  /** Decryption undoes encryption, and encryption decryption, for every block and round keys. */
  lemma {:induction false} DecryptEncrypt(sb: seq<u8>, isb: seq<u8>, rk: seq<u8>, n: nat, s: Block)
    requires Inverse(sb, isb) && |sb| == 256 && |isb| == 256 && |rk| == 176 && n <= 10
    ensures Unrounds(isb, rk, n, Rounds(sb, rk, n, s)) == s
    ensures Rounds(sb, rk, n, Unrounds(isb, rk, n, s)) == s
  {
    hide Inverse, AddKey, Round, Unround;
    if n == 0 {
      AddKeyTwice(s, rk, 0);
    } else {
      UnroundRound(sb, isb, rk, n, Rounds(sb, rk, n - 1, s));
      DecryptEncrypt(sb, isb, rk, n - 1, s);
      DecryptEncrypt(sb, isb, rk, n - 1, Unround(isb, rk, n, s));
      UnroundRound(sb, isb, rk, n, s);
    }
  }
}
