/** Montgomery multiplication for P-256, interleaved (CIOS) on in-place limb arrays, and congruence
    modulo the prime (kernel/lib/crypto.c:431-449). */
module Montgomery {
  import opened Limbs

  const P_LIMBS: seq<u32> := [0xffffffff, 0xffffffff, 0xffffffff, 0x00000000,
                              0x00000000, 0x00000000, 0x00000001, 0xffffffff]

  /** The prime of section D.1.2.3 of FIPS 186-4. */
  const P: nat := 0xffffffff_00000001_00000000_00000000_00000000_ffffffff_ffffffff_ffffffff

  const R: nat := 0x1_00000000_00000000_00000000_00000000_00000000_00000000_00000000_00000000

  lemma Constants()
    ensures Val(P_LIMBS) == P && Pow(LIMBS) == R && P < R
  {
    assert Pow(1) == BASE;
    assert Pow(2) == 0x1_00000000_00000000;
    assert Pow(3) == 0x1_00000000_00000000_00000000;
    assert Pow(4) == 0x1_00000000_00000000_00000000_00000000;
    assert Pow(5) == 0x1_00000000_00000000_00000000_00000000_00000000;
    assert Pow(6) == 0x1_00000000_00000000_00000000_00000000_00000000_00000000;
    assert Pow(7) == 0x1_00000000_00000000_00000000_00000000_00000000_00000000_00000000;
    assert Pow(8) == R;
    ValStep(P_LIMBS, 0);
    ValStep(P_LIMBS, 1);
    ValStep(P_LIMBS, 2);
    ValStep(P_LIMBS, 3);
    ValStep(P_LIMBS, 4);
    ValStep(P_LIMBS, 5);
    ValStep(P_LIMBS, 6);
    ValStep(P_LIMBS, 7);
    assert P_LIMBS[..8] == P_LIMBS && P_LIMBS[..0] == [];
  }

  // ---- one row of the interleaved multiplication -----------------------------------------

  lemma MulAddStep(v: int, c: int, w: int, a: int, aj: int, x: int, tj: int, s: int, p: int)
    requires v + c * p == w + a * x && s == aj * x + tj + c && s >= 0
    ensures v + (s % BASE) * p + (s / BASE) * (BASE * p) == (w + tj * p) + (a + aj * p) * x
  {
    Carry(s, p);
    assert s * p == (aj * x) * p + tj * p + c * p;
    assert (a + aj * p) * x == a * x + (aj * x) * p;
  }

  /** A 32 by 32 bit product with two 32-bit addends fits 64 bits. */
  lemma NoOverflow(a: int, x: int, t: int, c: int)
    requires 0 <= a < BASE && 0 <= x < BASE && 0 <= t < BASE && 0 <= c < BASE
    ensures 0 <= a * x + t + c < BASE * BASE
  {
    NonNegative(a, x);
    NonNegative(BASE - 1 - a, x);
    assert (BASE - 1 - a) * x == (BASE - 1) * x - a * x;
  }

  /** t[0..8] += a * x, the carry out of limb 7 returned. */
  method MulAddRow(t: array<u32>, a: array<u32>, x: u32) returns (c: u32)
    requires t.Length == LIMBS + 2 && a.Length == LIMBS && a != t
    modifies t
    ensures Val(t[..LIMBS]) + (c as int) * Pow(LIMBS) == old(Val(t[..LIMBS])) + Val(a[..]) * (x as int)
    ensures t[LIMBS] == old(t[LIMBS]) && t[LIMBS + 1] == old(t[LIMBS + 1])
  {
    hide Val, Pow;
    c := 0;
    ghost var w := t[..];
    ghost var y := a[..];
    ValEmpty(t[..0]);
    ValEmpty(w[..0]);
    ValEmpty(y[..0]);
    for j := 0 to LIMBS
      invariant Val(t[..j]) + (c as int) * Pow(j) == Val(w[..j]) + Val(y[..j]) * (x as int)
      invariant forall k :: j <= k < t.Length ==> t[k] == w[k]
    {
      var s := (a[j] as int) * (x as int) + t[j] as int + c as int;
      NoOverflow(a[j] as int, x as int, t[j] as int, c as int);
      ghost var before, c0 := t[..j], c;
      t[j] := (s % BASE) as u32;
      c := (s / BASE) as u32;
      assert t[..][..j] == before && t[..][..j + 1] == t[..j + 1];
      ValStep(w, j);
      ValStep(y, j);
      ValStep(t[..], j);
      PowStep(j);
      MulAddStep(Val(before), c0 as int, Val(w[..j]), Val(y[..j]), y[j] as int, x as int, w[j] as int, s, Pow(j));
    }
    assert y[..LIMBS] == y && w[..LIMBS] == old(t[..LIMBS]);
  }

  lemma ReduceStep(v: int, c: int, w: int, q: int, m: int, pj: int, tj: int, s: int, p: int)
    requires BASE * v + c * (BASE * p) == w + m * q && s == m * pj + tj + c && s >= 0
    ensures BASE * (v + (s % BASE) * p) + (s / BASE) * (BASE * (BASE * p))
            == (w + tj * (BASE * p)) + m * (q + pj * (BASE * p))
  {
    Carry(s, BASE * p);
    assert s * (BASE * p) == (m * pj) * (BASE * p) + tj * (BASE * p) + c * (BASE * p);
    assert m * (q + pj * (BASE * p)) == m * q + (m * pj) * (BASE * p);
    assert BASE * (v + (s % BASE) * p) == BASE * v + (s % BASE) * (BASE * p);
  }

  /** t = (t + t[0] * p) / 2^32, exact because p is -1 modulo 2^32; the nine result limbs are
      t[0..9]. The bound says the result does not need a tenth limb. */
  method ReduceRow(t: array<u32>)
    requires t.Length == LIMBS + 2
    requires Val(t[..]) + (t[0] as int) * P < 2 * R * BASE
    modifies t
    ensures Val(t[..LIMBS + 1]) * BASE == old(Val(t[..])) + old(t[0] as int) * P
  {
    hide Val, Pow;
    Constants();
    ghost var w := t[..];
    ghost var q := P_LIMBS;
    var m := t[0];
    var c := ((((m as int) * (P_LIMBS[0] as int)) + t[0] as int) / BASE) as u32;
    FirstWord(t, m, c);
    for j := 1 to LIMBS
      invariant BASE * Val(t[..j - 1]) + (c as int) * Pow(j) == Val(w[..j]) + (m as int) * Val(q[..j])
      invariant forall k :: j <= k < t.Length ==> t[k] == w[k]
    {
      var s := (m as int) * (P_LIMBS[j] as int) + t[j] as int + c as int;
      NoOverflow(m as int, P_LIMBS[j] as int, t[j] as int, c as int);
      ghost var before, c0 := t[..j - 1], c;
      t[j - 1] := (s % BASE) as u32;
      c := (s / BASE) as u32;
      assert t[..][..j - 1] == before && t[..][..j] == t[..j];
      ValStep(w, j);
      ValStep(q, j);
      ValStep(t[..], j - 1);
      PowStep(j);
      PowStep(j - 1);
      ReduceStep(Val(before), c0 as int, Val(w[..j]), Val(q[..j]), m as int, q[j] as int, w[j] as int, s, Pow(j - 1));
    }
    assert q[..LIMBS] == q;
    ghost var low := t[..LIMBS - 1];
    var s := t[LIMBS] as int + c as int;
    TopWords(w, low, m, c, s);
    t[LIMBS - 1] := (s % BASE) as u32;
    t[LIMBS] := (t[LIMBS + 1] as int + s / BASE) as u32;
    ghost var u := t[..LIMBS + 1];
    ValStep(u, LIMBS - 1);
    ValStep(u, LIMBS);
    assert u[..LIMBS - 1] == low && u[..LIMBS + 1] == u;
  }

  /** The low word cancels: m * (2^32 - 1) + m = m * 2^32. */
  lemma FirstWord(t: array<u32>, m: u32, c: u32)
    requires t.Length == LIMBS + 2 && m == t[0]
    requires c as int == ((m as int) * (P_LIMBS[0] as int) + t[0] as int) / BASE
    ensures BASE * Val(t[..0]) + (c as int) * Pow(1) == Val(t[..][..1]) + (m as int) * Val(P_LIMBS[..1])
  {
    assert (m as int) * (P_LIMBS[0] as int) + t[0] as int == (m as int) * BASE;
    assert c == m;
    ValStep(t[..], 0);
    ValStep(P_LIMBS, 0);
    assert t[..][..0] == [] && P_LIMBS[..0] == [] && t[..0] == [];
    assert Pow(0) == 1 && Pow(1) == BASE;
  }

  /** The last two words of the shifted sum, and that they fit. */
  lemma TopWords(w: seq<u32>, low: seq<u32>, m: u32, c: u32, s: int)
    requires |w| == LIMBS + 2 && |low| == LIMBS - 1 && s == w[LIMBS] as int + c as int
    requires Val(w) + (m as int) * P < 2 * R * BASE
    requires BASE * Val(low) + (c as int) * Pow(LIMBS) == Val(w[..LIMBS]) + (m as int) * P
    ensures w[LIMBS + 1] as int + s / BASE < BASE
    ensures BASE * (Val(low) + (s % BASE) * Pow(LIMBS - 1) + (w[LIMBS + 1] as int + s / BASE) * Pow(LIMBS))
            == Val(w) + (m as int) * P
  {
    hide Val, Pow;
    Constants();
    ValStep(w, LIMBS);
    ValStep(w, LIMBS + 1);
    assert w[..LIMBS + 2] == w;
    PowStep(LIMBS - 1);
    PowStep(LIMBS);
    var h := w[LIMBS + 1] as int + s / BASE;
    TopSum(Val(low), c as int, Val(w[..LIMBS]), w[LIMBS] as int, w[LIMBS + 1] as int, (m as int) * P, s,
           Pow(LIMBS - 1));
    TopFits(Val(low), s % BASE, h, Pow(LIMBS - 1));
  }

  lemma TopFits(v: int, l: int, h: int, p: int)
    requires v >= 0 && l >= 0 && p >= 0
    requires BASE * (v + l * p + h * R) < 2 * R * BASE
    ensures h < 2
  {
    NonNegative(l, p);
  }

  lemma TopSum(v: int, c: int, w: int, t8: int, t9: int, mp: int, s: int, p: int)
    requires s == t8 + c && s >= 0
    requires BASE * v + c * (BASE * p) == w + mp
    ensures BASE * (v + (s % BASE) * p + (t9 + s / BASE) * (BASE * p))
            == w + t8 * (BASE * p) + t9 * (BASE * (BASE * p)) + mp
  {
    Carry(s, p);
    assert s * p == t8 * p + c * p;
  }

  // ---- congruence modulo P ------------------------------------------------------------------

  predicate Cong(x: int, y: int) { (x - y) % P == 0 }

  lemma CongIntro(x: int, y: int, k: int)
    requires x - y == k * P
    ensures Cong(x, y)
  {
  }

  lemma CongTrans(x: int, y: int, z: int)
    requires Cong(x, y) && Cong(y, z)
    ensures Cong(x, z) && Cong(z, x)
  {
    CongIntro(x, z, (x - y) / P + (y - z) / P);
    CongIntro(z, x, -((x - y) / P + (y - z) / P));
  }

  lemma CongMul(x: int, y: int, u: int, v: int)
    requires Cong(x, y) && Cong(u, v)
    ensures Cong(x * u, y * v)
  {
    var k, l := (x - y) / P, (u - v) / P;
    assert x - y == k * P && u - v == l * P;
    MulDiff(x, y, u, v, k, l);
    CongIntro(x * u, y * v, x * l + k * v);
  }

  lemma MulDiff(x: int, y: int, u: int, v: int, k: int, l: int)
    requires x - y == k * P && u - v == l * P
    ensures x * u - y * v == (x * l + k * v) * P
  {
    assert x * (u - v) == (x * l) * P;
    assert (x - y) * v == (k * v) * P;
    assert x * u - y * v == x * (u - v) + (x - y) * v;
  }

  /** Residues are unique. */
  lemma CongUnique(x: int, y: int)
    requires Cong(x, y) && 0 <= x < P && 0 <= y < P
    ensures x == y
  {
  }

  lemma CongMod(x: int)
    ensures Cong(x % P, x) && Cong(x, x % P)
  {
    CongIntro(x % P, x, -(x / P));
    CongIntro(x, x % P, x / P);
  }

  /** The inverse of R modulo P: R is a unit, so a factor R cancels. */
  const R_INV: nat := 0xfffffffe_00000003_fffffffd_00000002_00000001_fffffffe_00000003_00000000

  lemma CancelR(x: int, y: int)
    requires Cong(x * R, y * R)
    ensures Cong(x, y)
  {
    var k := (x * R - y * R) / P;
    assert (x - y) * R == k * P;
    assert R * R_INV == 1 + ((R * R_INV) / P) * P;
    var u := (R * R_INV) / P;
    assert (x - y) * (1 + u * P) == (k * R_INV) * P;
    CongIntro(x, y, k * R_INV - (x - y) * u);
  }

  // ---- multiplication -------------------------------------------------------------------------

  lemma RowBound(t: int, a: int, bi: int, m: int)
    requires 0 <= t < a + P && 0 <= a < R && 0 <= bi < BASE && 0 <= m < BASE
    ensures t + a * bi + m * P < (a + P) * BASE <= 2 * R * BASE
  {
    NonNegative(a, BASE - 1 - bi);
    assert a * (BASE - 1 - bi) == a * (BASE - 1) - a * bi;
  }

  lemma RowStep(t: int, t': int, p: int, a: int, b: int, bi: int, m: int, k: int)
    requires t * p == a * b + k * P && t' * BASE == t + a * bi + m * P
    ensures t' * (BASE * p) == a * (b + bi * p) + (k + m * p) * P
  {
    assert t' * (BASE * p) == (t' * BASE) * p;
    assert (t + a * bi + m * P) * p == t * p + (a * bi) * p + (m * P) * p;
    assert a * (b + bi * p) == a * b + (a * bi) * p;
    assert (m * p) * P == (m * P) * p;
  }

  /** Fold the row's carry into the two top words. */
  lemma FoldCarry(w: seq<u32>, u: seq<u32>, v: seq<u32>, c: int, s: int, ax: int)
    requires |w| == |u| == |v| == LIMBS + 2
    requires Val(u[..LIMBS]) + c * Pow(LIMBS) == Val(w[..LIMBS]) + ax
    requires w[LIMBS] == u[LIMBS] && s == w[LIMBS] as int + c && c >= 0 && s / BASE < BASE
    requires v[..LIMBS] == u[..LIMBS] && v[LIMBS] as int == s % BASE && v[LIMBS + 1] as int == s / BASE
    ensures Val(v) == Val(w[..LIMBS + 1]) + ax
  {
    hide Val, Pow;
    ValStep(w, LIMBS);
    ValStep(v, LIMBS);
    ValStep(v, LIMBS + 1);
    assert v[..LIMBS + 2] == v;
    PowStep(LIMBS);
    Carry(s, Pow(LIMBS));
    assert s * Pow(LIMBS) == (w[LIMBS] as int) * Pow(LIMBS) + c * Pow(LIMBS);
  }

  /** t = (t + a * x + m * p) / 2^32 for the m that makes it exact. */
  method Row(t: array<u32>, a: array<u32>, x: u32) returns (ghost m: int)
    requires t.Length == LIMBS + 2 && a.Length == LIMBS && a != t
    requires Val(t[..LIMBS + 1]) < Val(a[..]) + P
    modifies t
    ensures 0 <= m < BASE
    ensures Val(t[..LIMBS + 1]) * BASE == old(Val(t[..LIMBS + 1])) + Val(a[..]) * (x as int) + m * P
    ensures Val(t[..LIMBS + 1]) < Val(a[..]) + P
  {
    hide Val, Pow;
    Constants();
    ValBound(a[..]);
    ghost var w := t[..];
    var c := MulAddRow(t, a, x);
    ghost var u := t[..];
    var s := t[LIMBS] as int + c as int;
    t[LIMBS] := (s % BASE) as u32;
    t[LIMBS + 1] := (s / BASE) as u32;
    ghost var v := t[..];
    assert w[..LIMBS + 1] == old(t[..LIMBS + 1]) && w[..LIMBS] == old(t[..LIMBS]);
    assert u[..LIMBS] == v[..LIMBS];
    FoldCarry(w, u, v, c as int, s, Val(a[..]) * (x as int));
    m := t[0] as int;
    RowBound(Val(w[..LIMBS + 1]), Val(a[..]), x as int, m);
    ReduceRow(t);
  }

  lemma FinalBound(t: int, k: int, ab: int)
    requires t * R == ab + k * P && 0 <= k < R && 0 <= ab
    ensures ab < P * R ==> t < 2 * P
    ensures t >= 0
  {
  }

  /** r = a * b / R modulo P. Exact for every pair of eight-limb inputs; the result is reduced
      when a * b < P * R. `r` may be `a` or `b`. */
  method MontMul(r: array<u32>, a: array<u32>, b: array<u32>)
    requires r.Length == LIMBS && a.Length == LIMBS && b.Length == LIMBS
    modifies r
    ensures Cong(Val(r[..]) * R, old(Val(a[..])) * old(Val(b[..])))
    ensures old(Val(a[..])) * old(Val(b[..])) < P * R ==> Val(r[..]) < P
    ensures a != r ==> a[..] == old(a[..])
    ensures b != r ==> b[..] == old(b[..])
  {
    hide Val, Pow;
    Constants();
    var t := new u32[LIMBS + 2](_ => 0);
    ghost var x, y, k := Val(a[..]), b[..], 0;
    ValBound(a[..]);
    ValBound(b[..]);
    ZeroVal(t[..LIMBS + 1]);
    ValEmpty(y[..0]);
    PowZero();
    for i := 0 to LIMBS
      invariant a[..] == old(a[..]) && b[..] == y
      invariant Val(t[..LIMBS + 1]) * Pow(i) == x * Val(y[..i]) + k * P
      invariant 0 <= k < Pow(i)
      invariant Val(t[..LIMBS + 1]) < x + P
    {
      ghost var t0 := Val(t[..LIMBS + 1]);
      ghost var m := Row(t, a, b[i]);
      PowStep(i);
      ValStep(y, i);
      RowStep(t0, Val(t[..LIMBS + 1]), Pow(i), x, Val(y[..i]), y[i] as int, m, k);
      TopLimb(k, m, Pow(i));
      k := k + m * Pow(i);
    }
    assert y[..LIMBS] == y;
    NonNegative(x, Val(y));
    FinalBound(Val(t[..LIMBS + 1]), k, x * Val(y));
    FinalSubtract(r, t, x);
    ghost var ab := x * Val(y);
    ghost var z := Val(t[..LIMBS + 1]);
    if Val(r[..]) == z {
      CongIntro(z * R, ab, k);
    } else {
      assert (z - P) * R == ab + (k - R) * P;
      CongIntro((z - P) * R, ab, k - R);
    }
  }

  lemma {:induction false} ZeroVal(s: seq<u32>)
    requires forall i :: 0 <= i < |s| ==> s[i] == 0
    ensures Val(s) == 0
  {
    if s != [] { ZeroVal(s[..|s| - 1]); }
  }

  /** The final conditional subtraction: the nine-word value, less P if it is at least P. */
  method FinalSubtract(r: array<u32>, t: array<u32>, ghost a: int)
    requires r.Length == LIMBS && t.Length == LIMBS + 2 && r != t
    requires 0 <= a < R && Val(t[..LIMBS + 1]) < a + P
    modifies r
    ensures var z := Val(t[..LIMBS + 1]); Val(r[..]) == if z < P then z else z - P
  {
    hide Val, Pow;
    Constants();
    ghost var u := t[..LIMBS + 1];
    ValStep(u, LIMBS);
    assert u[..LIMBS + 1] == u && u[..LIMBS] == t[..LIMBS];
    CopyLimbs(r, t);
    var p := new u32[LIMBS](i requires 0 <= i < LIMBS => P_LIMBS[i]);
    assert p[..] == P_LIMBS;
    var tmp := new u32[LIMBS];
    var bo := SubLimbs(tmp, r, p);
    ValBound(tmp[..]);
    ValBound(r[..]);
    if t[LIMBS] != 0 || bo == 0 {
      CopyLimbs(r, tmp);
      assert tmp[..LIMBS] == tmp[..];
    }
  }
}
