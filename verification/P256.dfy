/** The P-256 field as the kernel sets it up once: the constants R^2 and 1 in Montgomery form,
    addition and subtraction modulo P, and exponentiation by scanning exponent bits. */
module P256 {
  import opened Limbs
  import opened Montgomery
  import opened Division

  function Exp(x: int, n: nat): int { if n == 0 then 1 else x * Exp(x, n - 1) }

  lemma {:induction false} ExpAdd(x: int, m: nat, n: nat)
    ensures Exp(x, m + n) == Exp(x, m) * Exp(x, n)
  {
    if m > 0 {
      ExpAdd(x, m - 1, n);
      assert x * (Exp(x, m - 1) * Exp(x, n)) == (x * Exp(x, m - 1)) * Exp(x, n);
    }
  }

  lemma TwoToTheR()
    ensures Exp(2, 512) == R * R
  {
    hide Exp;
    ExpSmall();
    ExpAdd(2, 8, 8);
    ExpAdd(2, 16, 16);
    ExpAdd(2, 32, 32);
    ExpAdd(2, 64, 64);
    ExpAdd(2, 128, 128);
    ExpAdd(2, 256, 256);
  }

  lemma ExpSmall()
    ensures Exp(2, 0) == 1 && Exp(2, 8) == 256
  {
    assert Exp(2, 1) == 2 && Exp(2, 2) == 4 && Exp(2, 3) == 8 && Exp(2, 4) == 16;
    assert Exp(2, 5) == 32 && Exp(2, 6) == 64 && Exp(2, 7) == 128;
  }

  // ---- exponent bits ------------------------------------------------------------------------

  function Two(k: nat): (r: nat)
    ensures r >= 1
  {
    if k == 0 then 1 else 2 * Two(k - 1)
  }

  /** Bit `i` of the exponent. */
  function Bit(e: seq<u32>, i: nat): nat
    requires i < 32 * |e|
  {
    ((e[i / 32] as int) / Two(i % 32)) % 2
  }

  /** The number formed by bits `i` and up. */
  function Hi(e: seq<u32>, i: nat): nat
    requires i <= 32 * |e|
    decreases 32 * |e| - i
  {
    if i == 32 * |e| then 0 else 2 * Hi(e, i + 1) + Bit(e, i)
  }

  lemma HalfStep(x: nat, p: nat)
    requires p >= 1
    ensures x / p == 2 * (x / (2 * p)) + (x / p) % 2
  {
    var q, r := x / p, x % p;
    assert x == q * p + r;
    var h := q / 2;
    assert q == 2 * h + q % 2;
    var rem := (q % 2) * p + r;
    assert x == h * (2 * p) + rem;
    assert 0 <= rem < 2 * p by { if q % 2 == 1 { assert (q % 2) * p == p; } }
    DivUnique(x, 2 * p, h, rem);
  }

  lemma DivUnique(x: nat, d: nat, q: nat, r: nat)
    requires d > 0 && x == q * d + r && r < d
    ensures x / d == q
  {
    var q', r' := x / d, x % d;
    assert x == q' * d + r' && 0 <= r' < d;
    if q' > q { MulStrict(q, q', d); } else if q' < q { MulStrict(q', q, d); }
  }

  lemma MulStrict(a: int, b: int, d: int)
    requires a < b && d >= 0
    ensures a * d + d <= b * d
  {
    NonNegative(b - a - 1, d);
    assert (b - a - 1) * d == b * d - a * d - d;
  }

  lemma TwoThirtyTwo()
    ensures Two(32) == BASE
  {
    assert Two(1) == 2 && Two(2) == 4 && Two(3) == 8 && Two(4) == 16;
    assert Two(5) == 32 && Two(6) == 64 && Two(7) == 128 && Two(8) == 256;
    assert Two(9) == 512 && Two(10) == 1024 && Two(11) == 2048 && Two(12) == 4096;
    assert Two(13) == 0x2000 && Two(14) == 0x4000 && Two(15) == 0x8000 && Two(16) == 0x10000;
    assert Two(17) == 0x20000 && Two(18) == 0x40000 && Two(19) == 0x80000 && Two(20) == 0x100000;
    assert Two(21) == 0x200000 && Two(22) == 0x400000 && Two(23) == 0x800000 && Two(24) == 0x1000000;
    assert Two(25) == 0x2000000 && Two(26) == 0x4000000 && Two(27) == 0x8000000 && Two(28) == 0x10000000;
    assert Two(29) == 0x20000000 && Two(30) == 0x40000000 && Two(31) == 0x80000000;
  }

  /** The bits above position `j` of limb `k`: the higher limbs shifted, plus the limb's top. */
  lemma {:induction false} HiInside(e: seq<u32>, k: nat, j: nat)
    requires k < |e| && j <= 32
    ensures Hi(e, 32 * k + j) == Val(e[k + 1..]) * Two(32 - j) + (e[k] as int) / Two(j)
    decreases |e| - k, 32 - j
  {
    hide Val, Bit, Two;
    TwoThirtyTwo();
    if j == 32 {
      HiLimb(e, k + 1);
      TwoStep(0);
      assert (e[k] as int) / BASE == 0;
    } else {
      HiInside(e, k, j + 1);
      BitAt(e, k, j);
      TwoStep(j);
      TwoStep(31 - j);
      HiInsideStep(Val(e[k + 1..]), Two(31 - j), e[k] as int, Two(j));
    }
  }

  lemma TwoStep(k: nat)
    ensures Two(k + 1) == 2 * Two(k) && Two(0) == 1
  {
  }

  lemma HiInsideStep(v: nat, w: nat, x: nat, p: nat)
    requires p >= 1
    ensures 2 * (v * w + x / (2 * p)) + (x / p) % 2 == v * (2 * w) + x / p
  {
    HalfStep(x, p);
    assert 2 * (v * w) == v * (2 * w);
  }

  lemma BitAt(e: seq<u32>, k: nat, j: nat)
    requires k < |e| && j < 32
    ensures Bit(e, 32 * k + j) == ((e[k] as int) / Two(j)) % 2
  {
    assert (32 * k + j) / 32 == k && (32 * k + j) % 32 == j;
  }

  /** Reading every bit gives the number back. */
  lemma {:induction false} HiLimb(e: seq<u32>, k: nat)
    requires k <= |e|
    ensures Hi(e, 32 * k) == Val(e[k..])
    decreases |e| - k, 33
  {
    hide Two, Bit;
    if k == |e| {
      assert e[k..] == [];
    } else {
      hide Val, Hi;
      HiInside(e, k, 0);
      TwoThirtyTwo();
      ValCons(e[k..]);
      assert e[k..][1..] == e[k + 1..];
      TwoStep(0);
    }
  }

  // ---- modular addition and subtraction ---------------------------------------------------

  method Prime() returns (p: array<u32>)
    ensures fresh(p) && p.Length == LIMBS && p[..] == P_LIMBS && Val(p[..]) == P
  {
    Constants();
    p := new u32[LIMBS](i requires 0 <= i < LIMBS => P_LIMBS[i]);
    assert p[..] == P_LIMBS;
  }

  /** r = a + b modulo P for reduced a and b; `r` may be `a` or `b`. */
  method FpAdd(r: array<u32>, a: array<u32>, b: array<u32>)
    requires r.Length == LIMBS && a.Length == LIMBS && b.Length == LIMBS
    requires Val(a[..]) < P && Val(b[..]) < P
    modifies r
    ensures Val(r[..]) == (old(Val(a[..])) + old(Val(b[..]))) % P
  {
    hide Val, Pow;
    Constants();
    ghost var x, y := Val(a[..]), Val(b[..]);
    var p := Prime();
    var t := new u32[LIMBS];
    var c := AddLimbs(r, a, b);
    var bo := SubLimbs(t, r, p);
    ValBound(t[..]);
    ValBound(r[..]);
    if c != 0 || bo == 0 {
      CopyLimbs(r, t);
      assert t[..LIMBS] == t[..];
    }
    ModAdd(x, y, Val(r[..]));
  }

  lemma ModAdd(x: int, y: int, z: int)
    requires 0 <= x < P && 0 <= y < P && 0 <= z
    requires z == x + y - P || (z == x + y && x + y < P)
    ensures z == (x + y) % P
  {
  }

  /** r = a - b modulo P for reduced a and b; `r` may be `a` or `b`. */
  method FpSub(r: array<u32>, a: array<u32>, b: array<u32>)
    requires r.Length == LIMBS && a.Length == LIMBS && b.Length == LIMBS
    requires Val(a[..]) < P && Val(b[..]) < P
    modifies r
    ensures Val(r[..]) == (old(Val(a[..])) - old(Val(b[..]))) % P
  {
    hide Val, Pow;
    Constants();
    ghost var x, y := Val(a[..]), Val(b[..]);
    var bo := SubLimbs(r, a, b);
    ValBound(r[..]);
    if bo != 0 {
      var p := Prime();
      var c := AddLimbs(r, r, p);
      ValBound(r[..]);
      assert Val(r[..]) == x - y + P;
    }
  }

  // ---- the field's precomputed constants, and Montgomery form ---------------------------

  lemma OneVal(s: seq<u32>)
    requires |s| == LIMBS && s[0] == 1 && forall i :: 1 <= i < LIMBS ==> s[i] == 0
    ensures Val(s) == 1
  {
    ValCons(s);
    ZeroVal(s[1..]);
  }

  lemma DoubleStep(i: nat)
    ensures Exp(2, i + 1) == 2 * Exp(2, i)
    ensures (Exp(2, i) % P + Exp(2, i) % P) % P == Exp(2, i + 1) % P
  {
    PowerPositive(i);
    TwiceMod(Exp(2, i), P);
  }

  lemma {:induction false} PowerPositive(i: nat)
    ensures Exp(2, i) > 0
  {
    if i > 0 { PowerPositive(i - 1); }
  }

  lemma TwiceMod(x: nat, n: nat)
    requires n > 0
    ensures (x % n + x % n) % n == (2 * x) % n
  {
    var k, y := x / n, x % n;
    ghost var product := n * k;
    assert x == product + y;
    TwiceSplit(n, k, product);
    if 2 * y < n {
      ModOf(n, 2 * k, 2 * y);
      ModOf(n, 0, 2 * y);
    } else {
      ModOf(n, 1, 2 * y - n);
      ModOf(n, 2 * k + 1, 2 * y - n);
    }
  }

  lemma TwiceSplit(n: nat, k: nat, product: nat)
    requires product == n * k
    ensures n * (2 * k) == 2 * product && n * (2 * k + 1) == 2 * product + n
  {
  }

  /** z * R = s with s = R^2 modulo P makes z = R modulo P. */
  lemma OneMontgomery(z: int, s: int)
    requires s == (R * R) % P && Cong(z * R, 1 * s) && 0 <= z < P
    ensures z == R % P
  {
    CongMod(R * R);
    CongTrans(z * R, s, R * R);
    CancelR(z, R);
    CongMod(R);
    CongTrans(z, R, R % P);
    CongUnique(z, R % P);
  }

  /** Multiplying by R^2 and dividing by R: in Montgomery form. */
  lemma ToMontArith(z: int, x: int, s: int)
    requires s == (R * R) % P && Cong(z * R, x * s)
    ensures Cong(z, x * R)
  {
    CongMod(R * R);
    assert Cong(x, x);
    CongMul(x, x, s, R * R);
    CongTrans(z * R, x * s, x * (R * R));
    assert x * (R * R) == (x * R) * R;
    CancelR(z, x * R);
  }

  /** The product of two numbers in Montgomery form is the product's Montgomery form. */
  lemma MontProduct(z: int, a: int, b: int, x: int, y: int)
    requires Cong(z * R, a * b) && Cong(a, x * R) && Cong(b, y * R)
    ensures Cong(z, (x * y) * R)
  {
    CongMul(a, x * R, b, y * R);
    CongTrans(z * R, a * b, (x * R) * (y * R));
    Regroup(x, y);
    CancelR(z, (x * y) * R);
  }

  lemma Regroup(x: int, y: int)
    ensures (x * R) * (y * R) == ((x * y) * R) * R
  {
    assert (x * R) * (y * R) == (x * y) * (R * R);
  }

  lemma BoundedProduct(a: int, b: int)
    requires 0 <= a < P && 0 <= b < R
    ensures a * b < P * R && b * a < P * R
  {
    NonNegative(P - 1 - a, b);
    assert (P - 1 - a) * b == (P - 1) * b - a * b;
    assert b * a == a * b;
  }

  class Field {
    const r2: array<u32>
    const oneM: array<u32>

    ghost predicate Valid()
      reads this, r2, oneM
    {
      && r2.Length == LIMBS && oneM.Length == LIMBS
      && Val(r2[..]) == (R * R) % P && Val(oneM[..]) == R % P
    }

    /** 2^512 modulo P by 512 doublings, and 1 in Montgomery form. */
    constructor ()
      ensures Valid() && fresh(r2) && fresh(oneM)
    {
      hide Val, Pow, Exp;
      Constants();
      var s := new u32[LIMBS](i => if i == 0 then 1 else 0);
      var one := new u32[LIMBS](i => if i == 0 then 1 else 0);
      var m := new u32[LIMBS];
      OneVal(s[..]);
      OneVal(one[..]);
      ExpSmall();
      for i := 0 to 512
        invariant Val(s[..]) == Exp(2, i) % P
        invariant Val(one[..]) == 1
      {
        FpAdd(s, s, s);
        DoubleStep(i);
      }
      TwoToTheR();
      MontMul(m, one, s);
      OneMontgomery(Val(m[..]), Val(s[..]));
      r2 := s;
      oneM := m;
    }

    /** Into Montgomery form: r = a * R modulo P, for any 256-bit a. */
    method ToMont(r: array<u32>, a: array<u32>)
      requires Valid() && r.Length == LIMBS && a.Length == LIMBS && r != r2 && r != oneM
      modifies r
      ensures Valid()
      ensures Val(r[..]) == (old(Val(a[..])) * R) % P
      ensures a != r ==> a[..] == old(a[..])
    {
      hide Val, Pow;
      Constants();
      ghost var x := Val(a[..]);
      ValBound(a[..]);
      BoundedProduct(Val(r2[..]), x);
      MontMul(r, a, r2);
      ToMontArith(Val(r[..]), x, Val(r2[..]));
      CongMod(x * R);
      CongTrans(Val(r[..]), x * R, (x * R) % P);
      CongUnique(Val(r[..]), (x * R) % P);
    }

    /** Out of Montgomery form: r * R = a modulo P, with r reduced. */
    method FromMont(r: array<u32>, a: array<u32>)
      requires Valid() && r.Length == LIMBS && a.Length == LIMBS && r != r2 && r != oneM
      modifies r
      ensures Valid()
      ensures Val(r[..]) < P && Cong(Val(r[..]) * R, old(Val(a[..])))
      ensures a != r ==> a[..] == old(a[..])
    {
      hide Val, Pow;
      Constants();
      var one := new u32[LIMBS](i => if i == 0 then 1 else 0);
      OneVal(one[..]);
      ghost var x := Val(a[..]);
      ValBound(a[..]);
      BoundedProduct(1, x);
      assert x * 1 == x;
      MontMul(r, a, one);
    }

    /** r = base^e in Montgomery form, scanning all 256 exponent bits from the top: if base is
        x in Montgomery form then r is x^e in Montgomery form, reduced. */
    method MontPow(r: array<u32>, base: array<u32>, e: array<u32>, ghost x: int)
      requires Valid() && r.Length == LIMBS && base.Length == LIMBS && e.Length == LIMBS
      requires r != r2 && r != oneM && r != base && r != e
      requires Cong(Val(base[..]), x * R)
      modifies r
      ensures Valid()
      ensures Val(r[..]) < P && Cong(Val(r[..]), Exp(x, Val(e[..])) * R)
    {
      hide Val, Pow, Hi, Exp, Bit;
      Constants();
      ghost var es := e[..];
      CopyLimbs(r, oneM);
      assert oneM[..LIMBS] == oneM[..];
      HiTop(es, x);
      CongMod(R);
      ValBound(base[..]);
      var i := 256;
      while i > 0
        invariant 0 <= i <= 256
        invariant Valid() && base[..] == old(base[..]) && e[..] == es
        invariant Val(r[..]) < P && Cong(Val(r[..]), Exp(x, Hi(es, i)) * R)
      {
        i := i - 1;
        ghost var h, v := Hi(es, i + 1), Val(r[..]);
        BoundedProduct(v, v);
        MontMul(r, r, r);
        MontProduct(Val(r[..]), v, v, Exp(x, h), Exp(x, h));
        ExpAdd(x, h, h);
        HiBit(es, i);
        if BitSet(e, i) {
          ghost var w := Val(r[..]);
          BoundedProduct(w, Val(base[..]));
          MontMul(r, r, base);
          MontProduct(Val(r[..]), w, Val(base[..]), Exp(x, 2 * h), x);
          ExpOne(x, 2 * h);
        }
      }
      HiLimb(es, 0);
      assert es[0..] == es;
    }
  }

  /** (e[i / 32] >> (i % 32)) & 1, the shift and mask written as division and remainder. */
  predicate BitSet(e: array<u32>, i: nat)
    requires e.Length == LIMBS && i < 256
    reads e
  {
    ((e[i / 32] as int) / Two(i % 32)) % 2 == 1
  }

  lemma HiTop(e: seq<u32>, x: int)
    requires |e| == LIMBS
    ensures Hi(e, 256) == 0 && Exp(x, 0) == 1
  {
  }

  lemma HiBit(e: seq<u32>, i: nat)
    requires |e| == LIMBS && i < 256
    ensures Hi(e, i) == 2 * Hi(e, i + 1) + ((e[i / 32] as int) / Two(i % 32)) % 2
  {
  }

  lemma ExpOne(x: int, n: nat)
    ensures Exp(x, n + 1) == Exp(x, n) * x
  {
    assert x * Exp(x, n) == Exp(x, n) * x;
  }

  /** Leaving Montgomery form undoes entering it, for every reduced value. */
  lemma MontRoundTrip(x: int, m: int, y: int)
    requires 0 <= x < P && m == (x * R) % P
    requires 0 <= y < P && Cong(y * R, m)
    ensures y == x
  {
    CongMod(x * R);
    CongTrans(y * R, m, x * R);
    CancelR(y, x);
    CongUnique(y, x);
  }

  /** Converting in, raising to a power and converting out computes x^e modulo P. */
  lemma MontPowMeaning(x: int, e: nat, m: int, y: int)
    requires Cong(m, Exp(x, e) * R)
    requires 0 <= y < P && Cong(y * R, m)
    ensures y == Exp(x, e) % P
  {
    CongTrans(y * R, m, Exp(x, e) * R);
    CancelR(y, Exp(x, e));
    CongMod(Exp(x, e));
    CongTrans(y, Exp(x, e), Exp(x, e) % P);
    CongUnique(y, Exp(x, e) % P);
  }

  /** The three conversions chained, on the kernel's own representation. */
  method PowMod(field: Field, r: array<u32>, x: array<u32>, e: array<u32>)
    requires field.Valid() && r.Length == LIMBS && x.Length == LIMBS && e.Length == LIMBS
    requires r != x && r != e && r != field.r2 && r != field.oneM
    modifies r
    ensures Val(r[..]) == Exp(old(Val(x[..])), Val(e[..])) % P
  {
    hide Val, Pow, Exp;
    ghost var v := Val(x[..]);
    var m := new u32[LIMBS];
    field.ToMont(m, x);
    CongMod(v * R);
    field.MontPow(r, m, e, v);
    ghost var z := Val(r[..]);
    field.FromMont(r, r);
    MontPowMeaning(v, Val(e[..]), z, Val(r[..]));
  }
}
