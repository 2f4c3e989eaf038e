/** The AES-128 code itself: tables, key schedule, and the encryption and decryption loops over byte
    arrays (kernel/lib/crypto.c:151-206). */
module Aes {
  import opened Gf256
  import opened AesTables
  import opened AesBlock

  // ---- the key schedule, as section 5.2 of FIPS 197 defines it ---------------------------------

  /** The round constant of the `k`-th round key. */
  function Rcon(k: nat): u8 { if k <= 1 then 1 else Xt(Rcon(k - 1)) }

  /** What byte `i` of the schedule is added to, given the bytes before it. */
  function Temp(sb: seq<u8>, w: seq<u8>, i: nat): u8
    requires |sb| == 256 && 16 <= i <= |w|
  {
    if i % 16 >= 4 then w[i - 4]
    else if i % 16 == 0 then Add(sb[Num(w[i - 3])], Rcon(i / 16))
    else if i % 16 == 3 then sb[Num(w[i - 7])]
    else sb[Num(w[i - 3])]
  }

  predicate Expanded(sb: seq<u8>, w: seq<u8>, n: nat)
    requires |sb| == 256 && n <= |w|
  {
    forall i :: 16 <= i < n ==> w[i] == Add(w[i - 16], Temp(sb, w, i))
  }

  /** The tables and the round keys. */
  datatype Key = Key(sb: seq<u8>, isb: seq<u8>, rk: seq<u8>)

  ghost predicate KeyOk(k: Key) {
    |k.sb| == 256 && |k.isb| == 256 && |k.rk| == 176 && SboxOk(k.sb) && Inverse(k.sb, k.isb)
  }

  /** What is set up for the 16 bytes `key`: they are the first round key, the others follow the schedule. */
  ghost predicate IsKey(k: Key, key: seq<u8>) {
    KeyOk(k) && |key| == 16 && k.rk[..16] == key && Expanded(k.sb, k.rk, 176)
  }

  ghost function Enc(k: Key, s: Block): Block
    requires KeyOk(k)
  {
    Rounds(k.sb, k.rk, 10, s)
  }

  ghost function Dec(k: Key, s: Block): Block
    requires KeyOk(k)
  {
    Unrounds(k.isb, k.rk, 10, s)
  }

  /** The round trip of the two, whatever the key. */
  lemma RoundTrip(k: Key, s: Block)
    requires KeyOk(k)
    ensures Dec(k, Enc(k, s)) == s && Enc(k, Dec(k, s)) == s
  {
    hide SboxOk, Inverse, Rounds, Unrounds;
    DecryptEncrypt(k.sb, k.isb, k.rk, 10, s);
  }

  /** The bytes of the key determine all that is set up from them. */
  lemma KeyUnique(k: Key, l: Key, key: seq<u8>)
    requires IsKey(k, key) && IsKey(l, key)
    ensures k == l
  {
    hide SboxOk, Inverse, Expanded;
    SboxUnique(k.sb, l.sb);
    InverseUnique(k.sb, k.isb, l.isb);
    assert k.rk[..16] == l.rk[..16];
    ScheduleUnique(k.sb, k.rk, l.rk, 176);
    assert k.rk == l.rk;
  }

  lemma {:induction false} ScheduleUnique(sb: seq<u8>, w: seq<u8>, v: seq<u8>, n: nat)
    requires |sb| == 256 && 16 <= n <= |w| == |v| && Expanded(sb, w, n) && Expanded(sb, v, n) && w[..16] == v[..16]
    ensures w[..n] == v[..n]
  {
    hide Num, Add, Rcon;
    if n > 16 {
      ScheduleUnique(sb, w, v, n - 1);
      assert forall i :: 0 <= i < n - 1 ==> w[i] == w[..n - 1][i] && v[i] == v[..n - 1][i];
      assert Temp(sb, w, n - 1) == Temp(sb, v, n - 1) && w[n - 17] == v[n - 17];
      assert w[n - 1] == Add(w[n - 17], Temp(sb, w, n - 1)) && v[n - 1] == Add(v[n - 17], Temp(sb, v, n - 1));
      assert w[..n] == w[..n - 1] + [w[n - 1]] && v[..n] == v[..n - 1] + [v[n - 1]];
    }
  }

  class Aes128 {
    const sbox: array<u8>
    const isbox: array<u8>
    const rk: array<u8>

    ghost function View(): Key
      reads sbox, isbox, rk
    {
      Key(sbox[..], isbox[..], rk[..])
    }

    ghost predicate Valid()
      reads sbox, isbox, rk
    {
      sbox.Length == 256 && isbox.Length == 256 && rk.Length == 176 && KeyOk(View())
    }

    /** aes128_key: the tables, and the round keys of the given bytes. */
    constructor (key: array<u8>)
      requires key.Length == 16
      ensures Valid() && fresh(sbox) && fresh(isbox) && fresh(rk) && IsKey(View(), key[..])
    {
      var s, i := Tables();
      sbox, isbox := s, i;
      var w := new u8[176](_ => 0);
      rk := w;
      new;
      hide SboxOk, Inverse;
      Schedule(key);
    }

    method Schedule(key: array<u8>)
      requires key.Length == 16 && sbox.Length == 256 && rk.Length == 176 && rk != sbox && rk != isbox && key != rk
      modifies rk
      ensures rk[..16] == key[..] && Expanded(sbox[..], rk[..], 176)
    {
      hide Num, Add, Xt;
      for i := 0 to 16
        invariant forall k :: 0 <= k < i ==> rk[k] == key[k]
      {
        rk[i] := key[i];
      }
      var rc := 1;
      var i := 16;
      while i < 176
        invariant 16 <= i <= 176 && i % 4 == 0 && rc == Rcon((i + 12) / 16)
        invariant forall k :: 0 <= k < 16 ==> rk[k] == key[k]
        invariant Expanded(sbox[..], rk[..], i)
      {
        rc := Word(i, rc);
        i := i + 4;
      }
    }

    /** One word of the schedule. */
    method Word(i: nat, rc: u8) returns (rc': u8)
      requires 16 <= i < 176 && i % 4 == 0 && rc == Rcon((i + 12) / 16)
      requires sbox.Length == 256 && rk.Length == 176 && rk != sbox && Expanded(sbox[..], rk[..], i)
      modifies rk
      ensures rc' == Rcon((i + 16) / 16)
      ensures forall k :: 0 <= k < i ==> rk[k] == old(rk[k])
      ensures Expanded(sbox[..], rk[..], i + 4)
    {
      hide Num, Add, Xt;
      var t := rk[i - 4..i];
      rc' := rc;
      if i % 16 == 0 {
        t := [Add(sbox[Num(t[1])], rc), sbox[Num(t[2])], sbox[Num(t[3])], sbox[Num(t[0])]];
        rc' := Xt(rc);
      }
      RconStep(i);
      ghost var w := rk[..];
      assert |t| == 4 && t == TempWord(sbox[..], w, i) by { WordTemp(sbox[..], w, i); }
      hide Temp, TempWord, Expanded;
      WriteWord(i, t);
      WordDone(sbox[..], w, rk[..], i);
    }

    method WriteWord(i: nat, t: seq<u8>)
      requires 16 <= i && i + 4 <= rk.Length && |t| == 4
      modifies rk
      ensures forall k :: 0 <= k < i ==> rk[k] == old(rk[k])
      ensures forall k :: i <= k < i + 4 ==> rk[k] == Add(rk[k - 16], t[k - i])
    {
      hide Add;
      for j := 0 to 4
        invariant forall k :: 0 <= k < i ==> rk[k] == old(rk[k])
        invariant forall k :: i <= k < i + j ==> rk[k] == Add(rk[k - 16], t[k - i])
      {
        rk[i + j] := Add(rk[i - 16 + j], t[j]);
      }
    }

    // ---- the loops over blocks -------------------------------------------------------------------

    method AddKeyTo(s: array<u8>, r: nat)
      requires s.Length == 16 && rk.Length == 176 && r <= 10 && s != rk
      modifies s
      ensures s[..] == AddKey(old(s[..]), rk[..], r)
    {
      hide Add;
      for i := 0 to 16
        invariant forall k :: 0 <= k < 16 ==> s[k] == if k < i then Add(old(s[k]), rk[16 * r + k]) else old(s[k])
      {
        s[i] := Add(s[i], rk[16 * r + i]);
      }
    }

    method SubShiftTo(s: array<u8>, t: array<u8>)
      requires s.Length == 16 && t.Length == 16 && sbox.Length == 256 && s != t && t != sbox
      modifies t
      ensures t[..] == SubShift(sbox[..], s[..])
    {
      hide Num;
      for i := 0 to 16
        invariant forall k :: 0 <= k < i ==> t[k] == sbox[Num(s[Shift(k)])]
      {
        t[i] := sbox[Num(s[Shift(i)])];
      }
    }

    method UnsubShiftTo(s: array<u8>, t: array<u8>)
      requires s.Length == 16 && t.Length == 16 && isbox.Length == 256 && s != t && t != isbox
      modifies t
      ensures t[..] == UnsubShift(isbox[..], s[..])
    {
      hide Num, Shift, Unshift;
      for i := 0 to 16
        invariant forall k :: 0 <= k < 16 && Unshift(k) < i ==> t[k] == isbox[Num(s[Unshift(k)])]
      {
        ShiftUnshift(i);
        t[Shift(i)] := isbox[Num(s[i])];
        forall k | 0 <= k < 16 ensures Unshift(k) == i ==> k == Shift(i) { ShiftUnshift(k); }
      }
      forall k | 0 <= k < 16 ensures Unshift(k) < 16 { ShiftUnshift(k); }
      assert t[..] == UnsubShift(isbox[..], s[..]);
    }

    method MixTo(t: array<u8>)
      requires t.Length == 16
      modifies t
      ensures t[..] == MixColumns(old(t[..]))
    {
      hide MixOf, Below, MixColumns, UnmixColumns;
      ghost var s: Block := t[..];
      ghost var m := MixColumns(s);
      for c := 0 to 4
        invariant t[..4 * c] == m[..4 * c] && t[4 * c..] == s[4 * c..]
      {
        ColumnOf(s, c);
        assert t[4 * c] == s[4 * c] && t[4 * c + 1] == s[4 * c + 1] && t[4 * c + 2] == s[4 * c + 2];
        assert t[4 * c + 3] == s[4 * c + 3];
        var a0, a1, a2, a3 := t[4 * c], t[4 * c + 1], t[4 * c + 2], t[4 * c + 3];
        PutColumn(t, c, MixOf(a0, a1, a2, a3), MixOf(a1, a2, a3, a0), MixOf(a2, a3, a0, a1), MixOf(a3, a0, a1, a2));
        Extend(t[..], m, s, c);
      }
    }

    static method PutColumn(t: array<u8>, c: nat, x0: u8, x1: u8, x2: u8, x3: u8)
      requires t.Length == 16 && c < 4
      modifies t
      ensures t[..4 * c] == old(t[..4 * c]) && t[4 * c..4 * c + 4] == [x0, x1, x2, x3]
      ensures t[4 * c + 4..] == old(t[4 * c + 4..])
    {
      t[4 * c], t[4 * c + 1], t[4 * c + 2], t[4 * c + 3] := x0, x1, x2, x3;
    }

    method UnmixTo(s: array<u8>)
      requires s.Length == 16
      modifies s
      ensures s[..] == UnmixColumns(old(s[..]))
    {
      hide UnmixOf, Below, MixColumns, UnmixColumns;
      ghost var s0: Block := s[..];
      ghost var m := UnmixColumns(s0);
      for c := 0 to 4
        invariant s[..4 * c] == m[..4 * c] && s[4 * c..] == s0[4 * c..]
      {
        ColumnOf(s0, c);
        assert s[4 * c] == s0[4 * c] && s[4 * c + 1] == s0[4 * c + 1] && s[4 * c + 2] == s0[4 * c + 2];
        assert s[4 * c + 3] == s0[4 * c + 3];
        var a0, a1, a2, a3 := s[4 * c], s[4 * c + 1], s[4 * c + 2], s[4 * c + 3];
        var x0 := UnmixByte(a0, a1, a2, a3);
        var x1 := UnmixByte(a1, a2, a3, a0);
        var x2 := UnmixByte(a2, a3, a0, a1);
        var x3 := UnmixByte(a3, a0, a1, a2);
        PutColumn(s, c, x0, x1, x2, x3);
        Extend(s[..], m, s0, c);
      }
    }

    static method UnmixByte(a: u8, b: u8, c: u8, d: u8) returns (r: u8)
      ensures r == UnmixOf(a, b, c, d)
    {
      hide Add, Mul;
      var p := Gmul(a, 14);
      var q := Gmul(b, 11);
      var s := Gmul(c, 13);
      var t := Gmul(d, 9);
      r := Add(Add(p, q), Add(s, t));
    }

    method Encrypt(input: array<u8>, out: array<u8>)
      requires Valid() && input.Length == 16 && out.Length == 16 && out != rk && out != sbox && out != isbox
      modifies out
      ensures out[..] == old(Enc(View(), input[..]))
    {
      hide SboxOk, Inverse, AddKey, SubShift, MixColumns;
      var s, t := new u8[16], new u8[16];
      Copy(input, s);
      AddKeyTo(s, 0);
      for r := 1 to 11
        invariant s[..] == Rounds(sbox[..], rk[..], r - 1, old(input[..]))
      {
        SubShiftTo(s, t);
        if r < 10 { MixTo(t); }
        Copy(t, s);
        AddKeyTo(s, r);
      }
      Copy(s, out);
    }

    method Decrypt(input: array<u8>, out: array<u8>)
      requires Valid() && input.Length == 16 && out.Length == 16 && out != rk && out != sbox && out != isbox
      modifies out
      ensures out[..] == old(Dec(View(), input[..]))
    {
      hide SboxOk, Inverse, AddKey, UnsubShift, UnmixColumns;
      var s, t := new u8[16], new u8[16];
      Copy(input, s);
      for r := 10 downto 0
        invariant Unrounds(isbox[..], rk[..], r, s[..]) == old(Dec(View(), input[..]))
      {
        AddKeyTo(s, r + 1);
        if r + 1 < 10 { UnmixTo(s); }
        UnsubShiftTo(s, t);
        Copy(t, s);
      }
      AddKeyTo(s, 0);
      Copy(s, out);
    }
  }

  method Copy(a: array<u8>, b: array<u8>)
    requires a.Length == b.Length == 16
    modifies b
    ensures b[..] == old(a[..])
  {
    for i := 0 to 16
      invariant forall k :: 0 <= k < 16 ==> b[k] == if k < i then old(a[k]) else old(b[k])
    {
      b[i] := a[i];
    }
  }

  /** One more column done. */
  lemma Extend(t: Block, m: Block, s: Block, c: nat)
    requires c < 4 && t[..4 * c] == m[..4 * c] && t[4 * c + 4..] == s[4 * c..][4..]
    requires t[4 * c..4 * c + 4] == [m[4 * c], m[4 * c + 1], m[4 * c + 2], m[4 * c + 3]]
    ensures t[..4 * (c + 1)] == m[..4 * (c + 1)] && t[4 * (c + 1)..] == s[4 * (c + 1)..]
  {
    assert m[4 * c..4 * c + 4] == t[4 * c..4 * c + 4];
    assert t[..4 * (c + 1)] == t[..4 * c] + t[4 * c..4 * c + 4];
    assert m[..4 * (c + 1)] == m[..4 * c] + m[4 * c..4 * c + 4];
  }

  lemma RconStep(i: nat)
    requires i % 4 == 0 && i >= 16
    ensures i % 16 == 0 ==> (i + 12) / 16 == i / 16 && Rcon((i + 16) / 16) == Xt(Rcon(i / 16))
    ensures i % 16 != 0 ==> (i + 16) / 16 == (i + 12) / 16
  {
  }

  lemma WordIndex(i: nat, j: nat)
    requires i % 4 == 0 && j < 4
    ensures i % 16 == 0 ==> (i + j) % 16 == j && (i + j) / 16 == i / 16
    ensures i % 16 != 0 ==> (i + j) % 16 >= 4
  {
    var q, r := i / 16, i % 16;
    assert r % 4 == 0;
    Sixteenths(q, r + j);
  }

  lemma Sixteenths(q: nat, x: nat)
    requires x < 16
    ensures (16 * q + x) % 16 == x && (16 * q + x) / 16 == q
  {
  }

  function TempWord(sb: seq<u8>, w: seq<u8>, i: nat): (t: seq<u8>)
    requires |sb| == 256 && 16 <= i && i + 4 <= |w|
    ensures |t| == 4
  {
    if i % 16 == 0
    then [Add(sb[Num(w[i - 3])], Rcon(i / 16)), sb[Num(w[i - 2])], sb[Num(w[i - 1])], sb[Num(w[i - 4])]]
    else [w[i - 4], w[i - 3], w[i - 2], w[i - 1]]
  }

  lemma WordTemp(sb: seq<u8>, w: seq<u8>, i: nat)
    requires |sb| == 256 && 16 <= i && i + 4 <= |w| && i % 4 == 0
    ensures forall k :: i <= k < i + 4 ==> TempWord(sb, w, i)[k - i] == Temp(sb, w, k)
  {
    hide Num, Add, Rcon;
    WordIndex(i, 0); WordIndex(i, 1); WordIndex(i, 2); WordIndex(i, 3);
  }

  /** One more word written: the schedule holds for it too. */
  lemma WordDone(sb: seq<u8>, w: seq<u8>, v: seq<u8>, i: nat)
    requires |sb| == 256 && 16 <= i && i + 4 <= |w| == |v| && i % 4 == 0 && Expanded(sb, w, i)
    requires forall k :: 0 <= k < i ==> v[k] == w[k]
    requires forall k :: i <= k < i + 4 ==> v[k] == Add(v[k - 16], TempWord(sb, w, i)[k - i])
    ensures Expanded(sb, v, i + 4)
  {
    hide Temp, TempWord, Add;
    WordTemp(sb, w, i);
    forall k | 16 <= k < i + 4 ensures v[k] == Add(v[k - 16], Temp(sb, v, k)) {
      if k < i { assert w[k] == Add(w[k - 16], Temp(sb, w, k)); }
      TempSame(sb, w, v, i, k);
    }
  }

  lemma TempSame(sb: seq<u8>, w: seq<u8>, v: seq<u8>, i: nat, k: nat)
    requires |sb| == 256 && 16 <= k < i + 4 && i + 4 <= |w| == |v| && i % 4 == 0 && forall j :: 0 <= j < i ==>
               w[j] == v[j]
    ensures Temp(sb, w, k) == Temp(sb, v, k)
  {
    hide Num, Add;
    if k >= i { WordIndex(i, k - i); }
  }

  /** The bytes of column `c` and those below them. */
  lemma ColumnOf(s: Block, c: nat)
    requires c < 4
    ensures MixColumns(s)[4 * c] == MixOf(s[4 * c], s[4 * c + 1], s[4 * c + 2], s[4 * c + 3])
    ensures MixColumns(s)[4 * c + 1] == MixOf(s[4 * c + 1], s[4 * c + 2], s[4 * c + 3], s[4 * c])
    ensures MixColumns(s)[4 * c + 2] == MixOf(s[4 * c + 2], s[4 * c + 3], s[4 * c], s[4 * c + 1])
    ensures MixColumns(s)[4 * c + 3] == MixOf(s[4 * c + 3], s[4 * c], s[4 * c + 1], s[4 * c + 2])
    ensures UnmixColumns(s)[4 * c] == UnmixOf(s[4 * c], s[4 * c + 1], s[4 * c + 2], s[4 * c + 3])
    ensures UnmixColumns(s)[4 * c + 1] == UnmixOf(s[4 * c + 1], s[4 * c + 2], s[4 * c + 3], s[4 * c])
    ensures UnmixColumns(s)[4 * c + 2] == UnmixOf(s[4 * c + 2], s[4 * c + 3], s[4 * c], s[4 * c + 1])
    ensures UnmixColumns(s)[4 * c + 3] == UnmixOf(s[4 * c + 3], s[4 * c], s[4 * c + 1], s[4 * c + 2])
  {
    hide MixOf, UnmixOf, Below, MixColumns, UnmixColumns;
    ColumnsAt(s, 4 * c); ColumnsAt(s, 4 * c + 1); ColumnsAt(s, 4 * c + 2); ColumnsAt(s, 4 * c + 3);
    BelowForm(c, 0, 1); BelowForm(c, 0, 2); BelowForm(c, 0, 3);
    BelowForm(c, 1, 1); BelowForm(c, 1, 2); BelowForm(c, 1, 3);
    BelowForm(c, 2, 1); BelowForm(c, 2, 2); BelowForm(c, 2, 3);
    BelowForm(c, 3, 1); BelowForm(c, 3, 2); BelowForm(c, 3, 3);
  }
}
