/** The AES S-box as the kernel builds it: walking the powers p of 3 and q of 1/3 together, each
    entry is the affine image of the inverse of its index (kernel/lib/crypto.c:135-149; section 5.1.1
    of FIPS 197). */
module AesTables {
  import opened Gf256

  // ---- powers of 3 -----------------------------------------------------------------------------

  function Times3(p: u8): u8 { Add(p, Xt(p)) }

  /** Division by 3, as a product of shifts. */
  function Div3(q: u8): u8 { Reduce(Fold4(Fold2(Fold1(q)))) }

  function Fold1(q: u8): u8 { q ^ (q << 1) }

  function Fold2(q: u8): u8 { q ^ (q << 2) }

  function Fold4(q: u8): u8 { q ^ (q << 4) }

  function Reduce(q: u8): u8 { if q & 0x80 != 0 then q ^ 0x09 else q }

  function Pow3(k: nat): u8 { if k == 0 then 1 else Times3(Pow3(k - 1)) }

  function Inv3(k: nat): u8 { if k == 0 then 1 else Div3(Inv3(k - 1)) }

  lemma Times3Div3(q: u8)
    ensures Times3(Div3(q)) == q && Div3(Times3(q)) == q
  {
  }

  /** Doubling one factor doubles the product. */
  lemma {:induction false} MulXtOut(p: u8, r: u8)
    ensures Mul(Xt(p), r) == Xt(Mul(p, r))
    decreases r as int
  {
    if r == 0 {
      assert Xt(0) == 0;
    } else {
      Halves(r);
      SelXt(r, p);
      hide Xt, Sel, Add;
      XtLinear(Sel(r, p), Mul(Xt(p), r >> 1));
      MulXtOut(Xt(p), r >> 1);
    }
  }

  lemma SelXt(r: u8, p: u8)
    ensures Sel(r, Xt(p)) == Xt(Sel(r, p))
  {
    assert Xt(0) == 0;
  }

  lemma MulTimes3(p: u8, r: u8)
    ensures Mul(p, Times3(r)) == Times3(Mul(p, r)) && Mul(Times3(p), r) == Times3(Mul(p, r))
  {
    hide Xt, Add, Mul;
    MulLinear(p, Xt(p), r);
    MulLinear2(p, r, Xt(r));
    MulXt(p, r);
    MulXtOut(p, r);
  }

  lemma {:induction false} PowAdd(i: nat, j: nat)
    ensures Pow3(i + j) == Mul(Pow3(i), Pow3(j))
  {
    hide Times3, Mul;
    if j == 0 {
      MulOne(Pow3(i));
    } else {
      PowAdd(i, j - 1);
      MulTimes3(Pow3(i), Pow3(j - 1));
    }
  }

  lemma LowPowers()
    ensures Pow3(15) == 0x35 && Pow3(17) == 0xe1
  {
    assert Pow3(0) == 1;
    assert Pow3(1) == 0x03;
    assert Pow3(2) == 0x05;
    assert Pow3(3) == 0x0f;
    assert Pow3(4) == 0x11;
    assert Pow3(5) == 0x33;
    assert Pow3(6) == 0x55;
    assert Pow3(7) == 0xff;
    assert Pow3(8) == 0x1a;
    assert Pow3(9) == 0x2e;
    assert Pow3(10) == 0x72;
    assert Pow3(11) == 0x96;
    assert Pow3(12) == 0xa1;
    assert Pow3(13) == 0xf8;
    assert Pow3(14) == 0x13;
    assert Pow3(15) == 0x35;
    assert Pow3(16) == 0x5f;
    assert Pow3(17) == 0xe1;
  }

  lemma Power34()
    requires Pow3(17) == 0xe1
    ensures Pow3(34) == 0x5c
  {
    hide Mul, Pow3;
    PowAdd(17, 17);
    MulOne(0xfc);
    MulOdd(0x7e, 0x03);
    assert Mul(0x7e, 0x03) == 0x82;
    MulOdd(0x3f, 0x07);
    assert Mul(0x3f, 0x07) == 0xbd;
    MulEven(0x92, 0x0e);
    assert Mul(0x92, 0x0e) == 0xbd;
    MulEven(0x49, 0x1c);
    assert Mul(0x49, 0x1c) == 0xbd;
    MulEven(0xa9, 0x38);
    assert Mul(0xa9, 0x38) == 0xbd;
    MulEven(0xd9, 0x70);
    assert Mul(0xd9, 0x70) == 0xbd;
    MulOdd(0xe1, 0xe1);
    assert Mul(0xe1, 0xe1) == 0x5c;
  }

  lemma Power51()
    requires Pow3(34) == 0x5c && Pow3(17) == 0xe1
    ensures Pow3(51) == 0x0c
  {
    hide Mul, Pow3;
    PowAdd(34, 17);
    MulOne(0xcf);
    MulOdd(0xea, 0x03);
    assert Mul(0xea, 0x03) == 0x25;
    MulOdd(0x75, 0x07);
    assert Mul(0x75, 0x07) == 0x50;
    MulEven(0xb7, 0x0e);
    assert Mul(0xb7, 0x0e) == 0x50;
    MulEven(0xd6, 0x1c);
    assert Mul(0xd6, 0x1c) == 0x50;
    MulEven(0x6b, 0x38);
    assert Mul(0x6b, 0x38) == 0x50;
    MulEven(0xb8, 0x70);
    assert Mul(0xb8, 0x70) == 0x50;
    MulOdd(0x5c, 0xe1);
    assert Mul(0x5c, 0xe1) == 0x0c;
  }

  lemma Power85()
    requires Pow3(51) == 0x0c && Pow3(34) == 0x5c
    ensures Pow3(85) == 0xbd
  {
    hide Mul, Pow3;
    PowAdd(51, 34);
    MulOne(0x2d);
    MulEven(0x9b, 0x02);
    assert Mul(0x9b, 0x02) == 0x2d;
    MulOdd(0xc0, 0x05);
    assert Mul(0xc0, 0x05) == 0xed;
    MulOdd(0x60, 0x0b);
    assert Mul(0x60, 0x0b) == 0x8d;
    MulOdd(0x30, 0x17);
    assert Mul(0x30, 0x17) == 0xbd;
    MulEven(0x18, 0x2e);
    assert Mul(0x18, 0x2e) == 0xbd;
    MulEven(0x0c, 0x5c);
    assert Mul(0x0c, 0x5c) == 0xbd;
  }

  lemma Power170()
    requires Pow3(85) == 0xbd
    ensures Pow3(170) == 0xbc
  {
    hide Mul, Pow3;
    PowAdd(85, 85);
    MulOne(0x33);
    MulEven(0x94, 0x02);
    assert Mul(0x94, 0x02) == 0x33;
    MulOdd(0x4a, 0x05);
    assert Mul(0x4a, 0x05) == 0x79;
    MulOdd(0x25, 0x0b);
    assert Mul(0x25, 0x0b) == 0x5c;
    MulOdd(0x9f, 0x17);
    assert Mul(0x9f, 0x17) == 0xc3;
    MulOdd(0xc2, 0x2f);
    assert Mul(0xc2, 0x2f) == 0x01;
    MulEven(0x61, 0x5e);
    assert Mul(0x61, 0x5e) == 0x01;
    MulOdd(0xbd, 0xbd);
    assert Mul(0xbd, 0xbd) == 0xbc;
  }

  lemma Power255()
    requires Pow3(170) == 0xbc && Pow3(85) == 0xbd
    ensures Pow3(255) == 0x01
  {
    hide Mul, Pow3;
    PowAdd(170, 85);
    MulOne(0xb3);
    MulEven(0xd4, 0x02);
    assert Mul(0xd4, 0x02) == 0xb3;
    MulOdd(0x6a, 0x05);
    assert Mul(0x6a, 0x05) == 0xd9;
    MulOdd(0x35, 0x0b);
    assert Mul(0x35, 0x0b) == 0xec;
    MulOdd(0x97, 0x17);
    assert Mul(0x97, 0x17) == 0x7b;
    MulOdd(0xc6, 0x2f);
    assert Mul(0xc6, 0x2f) == 0xbd;
    MulEven(0x63, 0x5e);
    assert Mul(0x63, 0x5e) == 0xbd;
    MulOdd(0xbc, 0xbd);
    assert Mul(0xbc, 0xbd) == 0x01;
  }

  /** 3 has order 255: its powers come back to 1 after 255 steps and not before. */
  lemma Order(k: nat)
    requires 0 < k < 255
    ensures Pow3(k) != 1 && Pow3(255) == 1
  {
    hide Pow3;
    PowZero();
    LowPowers();
    Power34(); Power51(); Power85(); Power170(); Power255();
    if Pow3(k) == 1 {
      var d := Least(k);
      NoOrder(d);
    }
  }

  /** A least exponent below 255 would make a smaller power 1. */
  lemma NoOrder(d: nat)
    requires 0 < d < 255 && Pow3(d) == 1 && Pow3(255) == 1 && forall i :: 0 < i < d ==> Pow3(i) != 1
    ensures Pow3(15) == 1 || Pow3(51) == 1 || Pow3(85) == 1
  {
    hide Pow3;
    PowZero();
    Remainder(d);
    PowCycle(d, 255 / d, 255 % d);
    var m, n := Divides(d, 255 / d);
    PowCycle(d, m, 0);
  }

  lemma Remainder(d: nat)
    requires d > 0
    ensures d * (255 / d) + 255 % d == 255 && 0 <= 255 % d < d
  {
  }

  lemma PowZero()
    ensures Pow3(0) == 1
  {
  }

  /** The least exponent that gives 1. */
  lemma {:induction false} Least(k: nat) returns (d: nat)
    requires k > 0 && Pow3(k) == 1
    ensures 0 < d <= k && Pow3(d) == 1 && forall i :: 0 < i < d ==> Pow3(i) != 1
  {
    hide Pow3;
    if i :| 0 < i < k && Pow3(i) == 1 {
      d := Least(i);
    } else {
      d := k;
    }
  }

  /** Exponents count modulo any that gives 1. */
  lemma {:induction false} PowCycle(d: nat, m: nat, r: nat)
    requires Pow3(d) == 1
    ensures Pow3(d * m + r) == Pow3(r)
    decreases m
  {
    hide Pow3, Mul;
    if m > 0 {
      PowCycle(d, m - 1, r);
      assert d * m + r == (d * (m - 1) + r) + d;
      PowAdd(d * (m - 1) + r, d);
      MulOne(Pow3(d * (m - 1) + r));
    }
  }

  /** A proper divisor of 255 divides 15, 51 or 85. */
  lemma Divides(d: nat, m: nat) returns (j: nat, n: nat)
    requires d * m == 255 && 0 < d < 255
    ensures d * j == n && (n == 15 || n == 51 || n == 85)
  {
    if d <= 15 {
      SmallDivisor(d, m);
      j, n := 15 / d, 15;
    } else {
      if m >= 16 { Product(d, m); }
      SmallDivisor(m, d);
      if m == 3 { j, n := 1, 85; } else if m == 5 { j, n := 1, 51; } else { j, n := 5, 85; }
    }
  }

  lemma Product(d: nat, m: nat)
    requires d >= 16 && m >= 16
    ensures d * m >= 256
  {
  }

  lemma SmallDivisor(d: nat, m: nat)
    requires d <= 15 && d * m == 255
    ensures d == 1 || d == 3 || d == 5 || d == 15
  {
    assert d == 2 ==> d * m == 2 * m;
    assert d == 4 ==> d * m == 4 * m;
    assert d == 6 ==> d * m == 6 * m;
    assert d == 7 ==> d * m == 7 * m;
    assert d == 8 ==> d * m == 8 * m;
    assert d == 9 ==> d * m == 9 * m;
    assert d == 10 ==> d * m == 10 * m;
    assert d == 11 ==> d * m == 11 * m;
    assert d == 12 ==> d * m == 12 * m;
    assert d == 13 ==> d * m == 13 * m;
    assert d == 14 ==> d * m == 14 * m;
  }

  // ---- the walk reaches every nonzero byte once ------------------------------------------------

  lemma PowNonzero(k: nat)
    ensures Pow3(k) != 0
  {
    if k > 0 {
      PowNonzero(k - 1);
      Times3Nonzero(Pow3(k - 1));
    }
  }

  lemma Times3Nonzero(p: u8)
    requires p != 0
    ensures Times3(p) != 0
  {
    Times3Div3(p);
    assert Div3(0) == 0;
  }

  lemma {:induction false} PowDistinct(i: nat, j: nat)
    requires i < j < i + 255
    ensures Pow3(i) != Pow3(j)
    decreases i
  {
    hide Times3, Div3;
    if i == 0 {
      Order(j);
    } else {
      PowDistinct(i - 1, j - 1);
      Times3Div3(Pow3(i - 1));
      Times3Div3(Pow3(j - 1));
    }
  }

  /** A byte as a table index, and back. */
  function Num(x: u8): (n: nat)
    ensures n < 256
  {
    x as int
  }

  function Byte(i: nat): u8
    requires i < 256
  {
    if i == 0 then 0 else Byte(i - 1) + 1
  }

  lemma NumInjective(x: u8, y: u8)
    ensures Num(x) == Num(y) ==> x == y
  {
  }

  lemma {:induction false} NumByte(i: nat)
    requires i < 256
    ensures Num(Byte(i)) == i
  {
    hide Num;
    if i == 0 {
      ZeroNum();
    } else {
      NumByte(i - 1);
      NumNext(Byte(i - 1));
    }
  }

  lemma NumNext(x: u8)
    requires Num(x) < 255
    ensures Num(x + 1) == Num(x) + 1
  {
  }

  lemma ZeroNum()
    ensures Num(0) == 0
  {
  }

  lemma ByteNum(x: u8)
    ensures Byte(Num(x)) == x
  {
    hide Num, Byte;
    NumByte(Num(x));
    NumInjective(Byte(Num(x)), x);
  }

  /** The first `n` powers, as numbers. */
  ghost function Powers(n: nat): set<nat> { if n == 0 then {} else Powers(n - 1) + {Num(Pow3(n))} }

  lemma {:induction false} PowerOf(n: nat, v: nat) returns (k: nat)
    requires v in Powers(n)
    ensures 0 < k <= n && v == Num(Pow3(k))
  {
    hide Pow3, Num;
    if v in Powers(n - 1) {
      k := PowerOf(n - 1, v);
    } else {
      k := n;
    }
  }

  lemma {:induction false} PowersSize(n: nat)
    requires n <= 255
    ensures |Powers(n)| == n
  {
    hide Pow3, Num;
    if n > 0 {
      PowersSize(n - 1);
      if Num(Pow3(n)) in Powers(n - 1) {
        var k := PowerOf(n - 1, Num(Pow3(n)));
        PowDistinct(k, n);
        NumInjective(Pow3(k), Pow3(n));
      }
    }
  }

  ghost function Upto(n: nat): set<nat> { if n == 0 then {} else Upto(n - 1) + {n} }

  lemma {:induction false} UptoHas(n: nat)
    ensures |Upto(n)| == n && forall v :: v in Upto(n) <==> 0 < v <= n
  {
    if n > 0 { UptoHas(n - 1); }
  }

  lemma PowNum(k: nat)
    ensures Num(Pow3(k)) != 0
  {
    hide Pow3, Num;
    PowNonzero(k);
    NumInjective(Pow3(k), Byte(0));
    NumByte(0);
    assert Byte(0) == 0;
  }

  /** Every nonzero byte is a power of 3. */
  lemma Log(x: u8) returns (k: nat)
    requires x != 0
    ensures 0 < k <= 255 && Pow3(k) == x
  {
    assert Byte(0) == 0;
    hide Pow3, Num, Byte, Powers, Upto;
    PowersSize(255);
    UptoHas(255);
    forall v | v in Powers(255) ensures v in Upto(255) {
      var k := PowerOf(255, v);
      PowNum(k);
    }
    AllOf(Powers(255), Upto(255));
    NumInjective(x, Byte(0));
    NumByte(0);
    k := PowerOf(255, Num(x));
    NumInjective(x, Pow3(k));
  }

  lemma AllOf(a: set<nat>, b: set<nat>)
    requires a <= b && |a| == |b|
    ensures a == b
  {
    assert b == a + (b - a);
  }

  // ---- inverses --------------------------------------------------------------------------------

  lemma {:induction false} InvIsPow(k: nat)
    requires k <= 255
    ensures Inv3(k) == Pow3(255 - k)
  {
    hide Times3, Div3;
    if k == 0 {
      Order(1);
    } else {
      InvIsPow(k - 1);
      Times3Div3(Pow3(255 - k));
    }
  }

  /** The two walks stay inverse to each other. */
  lemma PowInv(k: nat)
    requires k <= 255
    ensures Mul(Pow3(k), Inv3(k)) == 1
  {
    hide Pow3, Inv3, Mul;
    InvIsPow(k);
    PowAdd(k, 255 - k);
    Order(1);
  }

  // ---- the tables --------------------------------------------------------------------------------

  function Affine(q: u8): u8 {
    q ^ ((q << 1) | (q >> 7)) ^ ((q << 2) | (q >> 6)) ^ ((q << 3) | (q >> 5)) ^ ((q << 4) | (q >> 4)) ^ 0x63
  }

  lemma AffineInjective(p: u8, q: u8)
    requires Affine(p) == Affine(q)
    ensures p == q
  {
  }

  /** Each entry is the affine image of its index's inverse, and 0 of itself. */
  ghost predicate SboxOk(s: seq<u8>) {
    |s| == 256 && s[0] == Affine(0) && forall k :: 0 < k <= 255 ==> s[Num(Pow3(k))] == Affine(Inv3(k))
  }

  /** The S-box is the one of FIPS 197: for nonzero x, the affine image of the q with x * q = 1. */
  lemma SboxIsInverse(s: seq<u8>, x: u8) returns (q: u8)
    requires SboxOk(s)
    ensures s[Num(x)] == Affine(q) && if x == 0 then q == 0 else Mul(x, q) == 1
  {
    hide Pow3, Inv3, Mul, Affine, Num;
    q := 0;
    if x != 0 {
      var k := Log(x);
      PowInv(k);
      q := Inv3(k);
    } else {
      ZeroNum();
    }
  }

  lemma SboxInjective(s: seq<u8>, x: u8, y: u8)
    requires SboxOk(s) && s[Num(x)] == s[Num(y)]
    ensures x == y
  {
    hide Pow3, Inv3, Mul, Affine, Num;
    var i, j := 0, 0;
    if x != 0 { i := Log(x); InvIsPow(i); PowNonzero(255 - i); } else { ZeroNum(); }
    if y != 0 { j := Log(y); InvIsPow(j); PowNonzero(255 - j); } else { ZeroNum(); }
    AffineInjective(if x != 0 then Inv3(i) else 0, if y != 0 then Inv3(j) else 0);
    if i < j {
      PowDistinct(255 - j, 255 - i);
    } else if j < i {
      PowDistinct(255 - i, 255 - j);
    }
  }

  /** The definition fixes the table. */
  lemma SboxUnique(s: seq<u8>, t: seq<u8>)
    requires SboxOk(s) && SboxOk(t)
    ensures s == t
  {
    hide Pow3, Inv3, Affine, Num;
    forall i: nat | i < 256 ensures s[i] == t[i] {
      NumByte(i);
      if Byte(i) != 0 { var k := Log(Byte(i)); } else { ZeroNum(); }
    }
  }

  /** Build both tables. */
  method Tables() returns (sbox: array<u8>, isbox: array<u8>)
    ensures fresh(sbox) && fresh(isbox) && SboxOk(sbox[..]) && Inverse(sbox[..], isbox[..])
  {
    hide Pow3, Inv3, Affine, Div3, Num, Xt, Inverse, Add;
    sbox := new u8[256](_ => 0);
    PowStart();
    var p, q := 1, 1;
    ghost var k := 0;
    while true
      invariant 0 <= k < 255 && p == Pow3(k) && q == Inv3(k)
      invariant forall i :: 0 < i <= k ==> sbox[Num(Pow3(i))] == Affine(Inv3(i))
      decreases 255 - k
    {
      PowNext(k);
      k := k + 1;
      p := Add(p, Xt(p));
      q := Div3(q);
      forall i | 0 < i < k ensures Num(Pow3(i)) != Num(p) {
        PowDistinct(i, k);
        NumInjective(Pow3(i), p);
      }
      sbox[Num(p)] := Affine(q);
      Order(if k < 255 then k else 1);
      if p == 1 { break; }
    }
    forall i | 0 < i <= 255 ensures Num(Pow3(i)) != 0 { PowNum(i); }
    AffineZero();
    sbox[0] := 0x63;
    isbox := Invert(sbox);
  }

  lemma PowStart()
    ensures Pow3(0) == 1 && Inv3(0) == 1
  {
  }

  lemma PowNext(k: nat)
    ensures Pow3(k + 1) == Add(Pow3(k), Xt(Pow3(k))) && Inv3(k + 1) == Div3(Inv3(k))
  {
  }

  lemma AffineZero()
    ensures Affine(0) == 0x63
  {
  }

  /** Each table undoes the other. */
  ghost predicate Inverse(s: seq<u8>, t: seq<u8>) {
    && |s| == 256 && |t| == 256
    && (forall x: u8 :: t[Num(s[Num(x)])] == x)
    && (forall x: u8 :: s[Num(t[Num(x)])] == x)
  }

  lemma InverseUnique(s: seq<u8>, t: seq<u8>, u: seq<u8>)
    requires SboxOk(s) && Inverse(s, t) && Inverse(s, u)
    ensures t == u
  {
    hide Num, SboxOk;
    forall i: nat | i < 256 ensures t[i] == u[i] {
      NumByte(i);
      assert s[Num(t[Num(Byte(i))])] == Byte(i) == s[Num(u[Num(Byte(i))])];
      SboxInjective(s, t[i], u[i]);
    }
  }

  method Invert(sbox: array<u8>) returns (isbox: array<u8>)
    requires sbox.Length == 256 && SboxOk(sbox[..])
    ensures fresh(isbox) && Inverse(sbox[..], isbox[..])
  {
    hide SboxOk, Num, Byte;
    isbox := new u8[256](_ => 0);
    for i := 0 to 256
      invariant forall k :: 0 <= k < i ==> isbox[Num(sbox[k])] == Byte(k)
    {
      forall k | 0 <= k < i ensures Num(sbox[k]) != Num(sbox[i]) {
        SboxApart(sbox[..], k, i);
      }
      isbox[Num(sbox[i])] := Byte(i);
    }
    forall x: u8 ensures isbox[Num(sbox[Num(x)])] == x { ByteNum(x); }
    forall y: u8 ensures sbox[Num(isbox[Num(y)])] == y {
      var k := SboxOnto(sbox[..], y);
      NumByte(k);
    }
  }

  lemma SboxApart(s: seq<u8>, k: nat, i: nat)
    requires SboxOk(s) && |s| == 256 && k < i < 256
    ensures Num(s[k]) != Num(s[i])
  {
    hide SboxOk, Num, Byte;
    NumByte(k);
    NumByte(i);
    if Num(s[k]) == Num(s[i]) {
      NumInjective(s[k], s[i]);
      SboxInjective(s, Byte(k), Byte(i));
    }
  }

  /** The first `n` entries of the S-box, as numbers. */
  ghost function Entries(s: seq<u8>, n: nat): set<nat>
    requires n <= |s|
  {
    if n == 0 then {} else Entries(s, n - 1) + {Num(s[n - 1])}
  }

  lemma {:induction false} EntryOf(s: seq<u8>, n: nat, v: nat) returns (k: nat)
    requires n <= |s| && v in Entries(s, n)
    ensures k < n && v == Num(s[k])
  {
    hide Num;
    if v in Entries(s, n - 1) {
      k := EntryOf(s, n - 1, v);
    } else {
      k := n - 1;
    }
  }

  lemma {:induction false} EntriesSize(s: seq<u8>, n: nat)
    requires SboxOk(s) && n <= |s| == 256
    ensures |Entries(s, n)| == n
  {
    hide Num, SboxOk;
    if n > 0 {
      EntriesSize(s, n - 1);
      if Num(s[n - 1]) in Entries(s, n - 1) {
        var k := EntryOf(s, n - 1, Num(s[n - 1]));
        SboxApart(s, k, n - 1);
      }
    }
  }

  /** Every byte is in the S-box. */
  lemma SboxOnto(s: seq<u8>, y: u8) returns (k: nat)
    requires SboxOk(s) && |s| == 256
    ensures k < 256 && s[k] == y
  {
    hide Num, SboxOk, Entries, Upto;
    EntriesSize(s, 256);
    UptoHas(255);
    var all := Upto(255) + {0};
    forall v | v in Entries(s, 256) ensures v in all { var j := EntryOf(s, 256, v); }
    AllOf(Entries(s, 256), all);
    k := EntryOf(s, 256, Num(y));
    NumInjective(s[k], y);
  }
}
