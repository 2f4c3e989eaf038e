/** The field GF(2^8) of AES as the kernel computes in it: doubling, the multiplication loop, and the
    laws of both (kernel/lib/crypto.c:127-133; section 4.2 of FIPS 197). */
module Gf256 {
  type u8 = bv8

  /** Addition in the field is exclusive or. */
  function Add(a: u8, b: u8): u8 { a ^ b }

  lemma AddLaws(a: u8, b: u8, c: u8)
    ensures Add(a, b) == Add(b, a) && Add(Add(a, b), c) == Add(a, Add(b, c))
    ensures Add(a, 0) == a && Add(0, a) == a && Add(a, a) == 0 && Add(Add(a, b), b) == a
  {
  }

  lemma Swap4(a: u8, b: u8, c: u8, d: u8)
    ensures Add(Add(a, b), Add(c, d)) == Add(Add(a, c), Add(b, d))
  {
    hide Add;
    AddLaws(a, b, Add(c, d));
    AddLaws(b, c, d);
    AddLaws(c, b, d);
    AddLaws(a, c, Add(b, d));
  }

  /** Multiplication by x, that is by 2. */
  function Xt(a: u8): u8 { (a << 1) ^ (if a & 0x80 != 0 then 0x1b else 0) }

  function Sel(b: u8, a: u8): u8 { if b & 1 != 0 then a else 0 }

  /** Multiplication, bit by bit of the second factor. */
  function Mul(a: u8, b: u8): u8
    decreases b as int
  {
    if b == 0 then 0 else
      Halves(b);
      Add(Sel(b, a), Mul(Xt(a), b >> 1))
  }

  lemma Halves(b: u8)
    requires b != 0
    ensures (b >> 1) as int < b as int
  {
    assert b >> 1 < b;
  }

  method Gmul(a0: u8, b0: u8) returns (r: u8)
    ensures r == Mul(a0, b0)
  {
    hide Xt;
    var a, b := a0, b0;
    r := 0;
    AddLaws(Mul(a0, b0), 0, 0);
    while b != 0
      invariant Add(r, Mul(a, b)) == Mul(a0, b0)
      decreases b as int
    {
      Halves(b);
      AddLaws(r, Sel(b, a), Mul(Xt(a), b >> 1));
      if b & 1 != 0 { r := Add(r, a); }
      b, a := b >> 1, Xt(a);
    }
    AddLaws(r, 0, 0);
  }

  // ---- multiplication is bilinear --------------------------------------------------------------

  /** Doubling without a branch. */
  function Xm(a: u8): u8 { (a << 1) ^ ((a >> 7) * 0x1b) }

  lemma XtIsXm(a: u8)
    ensures Xt(a) == Xm(a)
  {
    if a & 0x80 != 0 {
      assert a >> 7 == 1;
    } else {
      assert a >> 7 == 0;
    }
  }

  lemma XmLinear(a: u8, b: u8)
    ensures Xm(Add(a, b)) == Add(Xm(a), Xm(b))
  {
  }

  lemma XtLinear(a: u8, b: u8)
    ensures Xt(Add(a, b)) == Add(Xt(a), Xt(b))
  {
    hide Xt, Xm, Add;
    XtIsXm(a);
    XtIsXm(b);
    XtIsXm(Add(a, b));
    XmLinear(a, b);
  }

  lemma SelLinear(b: u8, p: u8, q: u8)
    ensures Sel(b, Add(p, q)) == Add(Sel(b, p), Sel(b, q))
  {
  }

  lemma SelLinear2(p: u8, b: u8, c: u8)
    ensures Sel(Add(b, c), p) == Add(Sel(b, p), Sel(c, p)) && Add(b, c) >> 1 == Add(b >> 1, c >> 1)
  {
  }

  lemma {:induction false} MulLinear(p: u8, q: u8, b: u8)
    ensures Mul(Add(p, q), b) == Add(Mul(p, b), Mul(q, b))
    decreases b as int
  {
    hide Xt, Sel, Add;
    AddLaws(0, 0, 0);
    if b != 0 {
      Halves(b);
      XtLinear(p, q);
      SelLinear(b, p, q);
      MulLinear(Xt(p), Xt(q), b >> 1);
      Swap4(Sel(b, p), Sel(b, q), Mul(Xt(p), b >> 1), Mul(Xt(q), b >> 1));
    }
  }

  /** The same product with a fixed number of steps. */
  function MulN(a: u8, b: u8, n: nat): u8
    decreases n
  {
    if n == 0 then 0 else Add(Sel(b, a), MulN(Xt(a), b >> 1, n - 1))
  }

  lemma {:induction false} MulNLinear(p: u8, b: u8, c: u8, n: nat)
    ensures MulN(p, Add(b, c), n) == Add(MulN(p, b, n), MulN(p, c, n))
    decreases n
  {
    hide Xt, Sel, Add;
    AddLaws(0, 0, 0);
    if n > 0 {
      SelLinear2(p, b, c);
      MulNLinear(Xt(p), b >> 1, c >> 1, n - 1);
      Swap4(Sel(b, p), Sel(c, p), MulN(Xt(p), b >> 1, n - 1), MulN(Xt(p), c >> 1, n - 1));
    }
  }

  function Shr(b: u8, n: nat): u8
    decreases n
  {
    if n == 0 then b else Shr(b >> 1, n - 1)
  }

  lemma {:induction false} MulIsMulN(a: u8, b: u8, n: nat)
    requires Shr(b, n) == 0
    ensures Mul(a, b) == MulN(a, b, n)
    decreases n
  {
    hide Xt, Add;
    if n > 0 {
      if b != 0 {
        MulIsMulN(Xt(a), b >> 1, n - 1);
      } else {
        ZeroN(a, n);
      }
    }
  }

  lemma {:induction false} ZeroN(a: u8, n: nat)
    ensures MulN(a, 0, n) == 0
    decreases n
  {
    hide Xt, Add;
    AddLaws(0, 0, 0);
    if n > 0 {
      assert (0 as bv8) >> 1 == 0;
      ZeroN(Xt(a), n - 1);
    }
  }

  lemma EightShifts(b: u8)
    ensures Shr(b, 8) == 0
  {
    var c := b >> 1 >> 1 >> 1 >> 1;
    assert Shr(b, 8) == Shr(b >> 1, 7) == Shr(b >> 1 >> 1, 6) == Shr(b >> 1 >> 1 >> 1, 5) == Shr(c, 4);
    assert Shr(c, 4) == Shr(c >> 1, 3) == Shr(c >> 1 >> 1, 2) == Shr(c >> 1 >> 1 >> 1, 1) == c >> 1 >> 1 >> 1 >> 1;
  }

  lemma MulLinear2(p: u8, b: u8, c: u8)
    ensures Mul(p, Add(b, c)) == Add(Mul(p, b), Mul(p, c))
  {
    hide Mul, MulN, Shr, Add;
    EightShifts(b);
    EightShifts(c);
    EightShifts(Add(b, c));
    MulIsMulN(p, b, 8);
    MulIsMulN(p, c, 8);
    MulIsMulN(p, Add(b, c), 8);
    MulNLinear(p, b, c, 8);
  }

  // ---- doubling a factor -----------------------------------------------------------------------

  lemma MulEven(a: u8, b: u8)
    requires b & 1 == 0
    ensures Mul(a, b) == Mul(Xt(a), b >> 1)
  {
    hide Xt, Add;
    AddLaws(Mul(Xt(a), b >> 1), 0, 0);
    if b == 0 { assert b >> 1 == 0; }
  }

  lemma MulOdd(a: u8, b: u8)
    requires b & 1 == 1
    ensures Mul(a, b) == Add(a, Mul(Xt(a), b >> 1))
  {
    hide Xt, Add;
  }

  lemma MulOne(a: u8)
    ensures Mul(a, 1) == a
  {
    hide Xt, Add;
    MulOdd(a, 1);
    AddLaws(a, 0, 0);
    assert Mul(Xt(a), 0) == 0;
  }

  /** Doubling either factor gives the same product. */
  lemma MulXt(p: u8, r: u8)
    ensures Mul(Xt(p), r) == Mul(p, Xt(r))
  {
    var low, high := r & 0x7f, r & 0x80;
    LowHigh(r);
    hide Xt, Mul, Add;
    MulLinear2(Xt(p), low, high);
    MulLow(p, low);
    MulHigh(p, high);
    XtLinear(low, high);
    MulLinear2(p, Xt(low), Xt(high));
  }

  lemma LowHigh(r: u8)
    ensures r == Add(r & 0x7f, r & 0x80) && (r & 0x80 == 0 || r & 0x80 == 0x80) && (r & 0x7f) & 0x80 == 0
  {
  }

  lemma MulLow(p: u8, b: u8)
    requires b & 0x80 == 0
    ensures Mul(Xt(p), b) == Mul(p, Xt(b))
  {
    DoubleBits(b);
    hide Xt, Mul;
    MulEven(p, b << 1);
  }

  lemma DoubleBits(b: u8)
    requires b & 0x80 == 0
    ensures Xt(b) == b << 1 && (b << 1) >> 1 == b && (b << 1) & 1 == 0
  {
  }

  lemma MulHigh(p: u8, high: u8)
    requires high == 0 || high == 0x80
    ensures Mul(Xt(p), high) == Mul(p, Xt(high))
  {
    assert Xt(0) == 0 && Xt(0x80) == 0x1b;
    hide Xt, Add;
    if high == 0 {
      assert Mul(Xt(p), 0) == 0 && Mul(p, 0) == 0;
    } else {
      hide Mul;
      MulTop(p);
    }
  }

  /** x^8 is x^4 + x^3 + x + 1. */
  lemma MulTop(p: u8)
    ensures Mul(Xt(p), 0x80) == Mul(p, 0x1b)
  {
    hide Xt, Mul, Add;
    var x1 := Xt(p); var x2 := Xt(x1); var x3 := Xt(x2); var x4 := Xt(x3);
    var x5 := Xt(x4); var x6 := Xt(x5); var x7 := Xt(x6); var x8 := Xt(x7);
    Eighth(p);
    MulOdd(p, 0x1b); MulOdd(x1, 13); MulEven(x2, 6); MulOdd(x3, 3); MulOne(x4);
    MulEven(x1, 0x80); MulEven(x2, 0x40); MulEven(x3, 0x20); MulEven(x4, 0x10);
    MulEven(x5, 8); MulEven(x6, 4); MulEven(x7, 2); MulOne(x8);
  }

  lemma Eighth(p: u8)
    ensures Xt(Xt(Xt(Xt(Xt(Xt(Xt(Xt(p)))))))) == Add(p, Add(Xt(p), Add(Xt(Xt(Xt(p))), Xt(Xt(Xt(Xt(p)))))))
  {
    hide Xt, Xm, Add;
    var x1 := Xm(p); var x2 := Xm(x1); var x3 := Xm(x2); var x4 := Xm(x3);
    var x5 := Xm(x4); var x6 := Xm(x5); var x7 := Xm(x6);
    XtIsXm(p); XtIsXm(x1); XtIsXm(x2); XtIsXm(x3); XtIsXm(x4); XtIsXm(x5); XtIsXm(x6); XtIsXm(x7);
    EighthXm(p);
  }

  lemma EighthXm(p: u8)
    ensures Xm(Xm(Xm(Xm(Xm(Xm(Xm(Xm(p)))))))) == Add(p, Add(Xm(p), Add(Xm(Xm(Xm(p))), Xm(Xm(Xm(Xm(p)))))))
  {
  }
}
