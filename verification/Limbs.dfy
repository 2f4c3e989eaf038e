/** 256-bit integers as eight little-endian 32-bit limbs, as kernel/lib/crypto.c keeps field
    elements, and the carry chains over them. */
module Limbs {

  const BASE: int := 0x1_0000_0000
  const LIMBS: nat := 8

  newtype u32 = x: int | 0 <= x < 0x1_0000_0000

  function Pow(k: nat): nat { if k == 0 then 1 else BASE * Pow(k - 1) }

  /** The integer a little-endian limb sequence stands for. */
  function Val(s: seq<u32>): nat {
    if s == [] then 0 else Val(s[..|s| - 1]) + (s[|s| - 1] as int) * Pow(|s| - 1)
  }

  lemma ValStep(s: seq<u32>, j: nat)
    requires j < |s|
    ensures Val(s[..j + 1]) == Val(s[..j]) + (s[j] as int) * Pow(j)
  {
    assert s[..j + 1][..j] == s[..j];
  }

  lemma ValEmpty(s: seq<u32>)
    requires s == []
    ensures Val(s) == 0
  {
  }

  lemma PowZero()
    ensures Pow(0) == 1
  {
  }

  lemma PowStep(k: nat)
    ensures Pow(k + 1) == BASE * Pow(k)
  {
  }

  lemma {:induction false} ValBound(s: seq<u32>)
    ensures Val(s) < Pow(|s|)
  {
    if s != [] {
      var n := |s| - 1;
      ValBound(s[..n]);
      TopLimb(Val(s[..n]), s[n] as int, Pow(n));
    }
  }

  lemma TopLimb(low: int, x: int, p: int)
    requires 0 <= low < p && 0 <= x < BASE
    ensures 0 <= low + x * p < BASE * p
  {
    NonNegative(BASE - 1 - x, p);
    NonNegative(x, p);
    assert (BASE - 1 - x) * p == BASE * p - p - x * p;
  }

  lemma NonNegative(a: int, b: int)
    requires a >= 0 && b >= 0
    ensures a * b >= 0
  {
  }

  lemma {:induction false} ValCons(s: seq<u32>)
    requires s != []
    ensures Val(s) == s[0] as int + BASE * Val(s[1..])
  {
    var n := |s| - 1;
    if n == 0 {
      assert s[..0] == [];
      assert s[1..] == [];
    } else {
      ValCons(s[..n]);
      assert s[..n][1..] == s[1..][..n - 1];
      assert s[1..][n - 1] == s[n];
    }
  }

  /** Splitting a double-word sum into its low limb and carry, at weight `p`. */
  lemma Carry(s: int, p: int)
    requires s >= 0
    ensures (s % BASE) * p + (s / BASE) * (BASE * p) == s * p
  {
    var q, l := s / BASE, s % BASE;
    assert s == q * BASE + l;
    Distribute(q, l, p);
  }

  lemma Distribute(q: int, l: int, p: int)
    ensures (q * BASE + l) * p == l * p + q * (BASE * p)
  {
  }

  lemma AddStep(r: int, c: int, x: int, y: int, ai: int, bi: int, s: int, p: int)
    requires r + c * p == x + y && s == ai + bi + c && s >= 0
    ensures r + (s % BASE) * p + (s / BASE) * (BASE * p) == (x + ai * p) + (y + bi * p)
  {
    Carry(s, p);
    assert s * p == ai * p + bi * p + c * p;
  }

  lemma SubStep(r: int, bo: int, x: int, y: int, d: int, ai: int, bi: int, p: int)
    requires r == x - y + bo * p && d == ai - bi - bo
    ensures var bo' := if d < 0 then 1 else 0;
            var l := if d < 0 then d + BASE else d;
            r + l * p == (x + ai * p) - (y + bi * p) + bo' * (BASE * p)
  {
    assert d * p == ai * p - bi * p - bo * p;
    if d < 0 { assert (d + BASE) * p == d * p + BASE * p; }
  }

  /** r = a + b mod 2^256, the carry out returned; `r` may be `a` or `b`. */
  method AddLimbs(r: array<u32>, a: array<u32>, b: array<u32>) returns (c: u32)
    requires r.Length == LIMBS && a.Length == LIMBS && b.Length == LIMBS
    modifies r
    ensures c <= 1
    ensures Val(r[..]) + (c as int) * Pow(LIMBS) == old(Val(a[..])) + old(Val(b[..]))
    ensures a != r ==> a[..] == old(a[..])
    ensures b != r ==> b[..] == old(b[..])
  {
    hide Val, Pow;
    c := 0;
    ghost var x, y := a[..], b[..];
    ValEmpty(r[..0]);
    ValEmpty(x[..0]);
    ValEmpty(y[..0]);
    for i := 0 to LIMBS
      invariant c <= 1
      invariant Val(r[..i]) + (c as int) * Pow(i) == Val(x[..i]) + Val(y[..i])
      invariant forall j :: i <= j < LIMBS ==> a[j] == x[j] && b[j] == y[j]
      invariant a != r ==> a[..] == x
      invariant b != r ==> b[..] == y
    {
      ghost var c0 := c;
      var s := a[i] as int + b[i] as int + c as int;
      ghost var before := r[..i];
      r[i] := (s % BASE) as u32;
      c := (s / BASE) as u32;
      assert r[..][..i] == before && r[..][..i + 1] == r[..i + 1];
      ValStep(x, i);
      ValStep(y, i);
      ValStep(r[..], i);
      PowStep(i);
      AddStep(Val(before), c0 as int, Val(x[..i]), Val(y[..i]), x[i] as int, y[i] as int, s, Pow(i));
    }
    assert r[..LIMBS] == r[..] && x[..LIMBS] == x && y[..LIMBS] == y;
  }

  /** r = a - b mod 2^256, the borrow returned; `r` may be `a` or `b`. */
  method SubLimbs(r: array<u32>, a: array<u32>, b: array<u32>) returns (bo: u32)
    requires r.Length == LIMBS && a.Length == LIMBS && b.Length == LIMBS
    modifies r
    ensures bo <= 1
    ensures Val(r[..]) == old(Val(a[..])) - old(Val(b[..])) + (bo as int) * Pow(LIMBS)
    ensures a != r ==> a[..] == old(a[..])
    ensures b != r ==> b[..] == old(b[..])
  {
    hide Val, Pow;
    bo := 0;
    ghost var x, y := a[..], b[..];
    ValEmpty(r[..0]);
    ValEmpty(x[..0]);
    ValEmpty(y[..0]);
    for i := 0 to LIMBS
      invariant bo <= 1
      invariant Val(r[..i]) == Val(x[..i]) - Val(y[..i]) + (bo as int) * Pow(i)
      invariant forall j :: i <= j < LIMBS ==> a[j] == x[j] && b[j] == y[j]
      invariant a != r ==> a[..] == x
      invariant b != r ==> b[..] == y
    {
      ghost var bo0 := bo;
      var d := a[i] as int - b[i] as int - bo as int;
      ghost var before := r[..i];
      r[i] := (if d < 0 then d + BASE else d) as u32;
      bo := if d < 0 then 1 else 0;
      assert r[..][..i] == before && r[..][..i + 1] == r[..i + 1];
      ValStep(x, i);
      ValStep(y, i);
      ValStep(r[..], i);
      PowStep(i);
      SubStep(Val(before), bo0 as int, Val(x[..i]), Val(y[..i]), d, x[i] as int, y[i] as int, Pow(i));
    }
    assert r[..LIMBS] == r[..] && x[..LIMBS] == x && y[..LIMBS] == y;
  }

  method CopyLimbs(r: array<u32>, a: array<u32>)
    requires r.Length == LIMBS && a.Length >= LIMBS
    modifies r
    ensures r[..] == old(a[..LIMBS])
    ensures a != r ==> a[..] == old(a[..])
  {
    ghost var x := a[..LIMBS];
    for i := 0 to LIMBS
      invariant forall j :: 0 <= j < i ==> r[j] == x[j]
      invariant forall j :: i <= j < LIMBS ==> a[j] == x[j]
      invariant a != r ==> a[..] == old(a[..])
    {
      r[i] := a[i];
    }
  }
}
