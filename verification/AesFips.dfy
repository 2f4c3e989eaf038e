/** The cipher and the key expansion as FIPS 197 writes them, on a state of four rows and columns and on words
    (sections 3.4, 5.1 and 5.2), and that the byte loops compute them (kernel/lib/crypto.c:151-206). */
module AesFips {
  import opened Gf256
  import opened AesTables
  import opened AesBlock
  import opened Aes

  type Matrix = m: seq<seq<u8>> | |m| == 4 && forall r :: 0 <= r < 4 ==> |m[r]| == 4
    witness seq(4, _ => seq(4, _ => 0))

  /** The state: the bytes of a block go down the columns. */
  function State(s: Block): Matrix {
    seq(4, r requires 0 <= r < 4 => seq(4, c requires 0 <= c < 4 => s[r + 4 * c]))
  }

  /** The words of the key schedule. */
  function Words(rk: seq<u8>): (w: seq<seq<u8>>)
    requires |rk| == 176
    ensures |w| == 44 && forall i :: 0 <= i < 44 ==> |w[i]| == 4
  {
    seq(44, i requires 0 <= i < 44 => rk[4 * i..4 * i + 4])
  }

  function SubBytes(sb: seq<u8>, m: Matrix): Matrix
    requires |sb| == 256
  {
    seq(4, r requires 0 <= r < 4 => seq(4, c requires 0 <= c < 4 => sb[Num(m[r][c])]))
  }

  function ShiftRows(m: Matrix): Matrix {
    seq(4, r requires 0 <= r < 4 => seq(4, c requires 0 <= c < 4 => m[r][(c + r) % 4]))
  }

  /** Each column times the matrix whose first row is 2, 3, 1, 1 and whose others are that one rotated. */
  function MixState(m: Matrix): Matrix {
    seq(4, r requires 0 <= r < 4 => seq(4, c requires 0 <= c < 4 => MixedCell(m, r, c)))
  }

  function MixedCell(m: Matrix, r: nat, c: nat): u8
    requires r < 4 && c < 4
  {
    Sum4(Mul(m[r][c], 2), Mul(m[Turn(r, 1)][c], 3), Mul(m[Turn(r, 2)][c], 1), Mul(m[Turn(r, 3)][c], 1))
  }

  function AddRoundKey(m: Matrix, w: seq<seq<u8>>, k: nat): Matrix
    requires |w| == 44 && (forall i :: 0 <= i < 44 ==> |w[i]| == 4) && k <= 10
  {
    seq(4, r requires 0 <= r < 4 => seq(4, c requires 0 <= c < 4 => Add(m[r][c], w[4 * k + c][r])))
  }

  /** The state after `n` of the ten rounds; the last does not mix. */
  function Cipher(sb: seq<u8>, w: seq<seq<u8>>, n: nat, m: Matrix): Matrix
    requires |sb| == 256 && |w| == 44 && (forall i :: 0 <= i < 44 ==> |w[i]| == 4) && n <= 10
  {
    if n == 0 then AddRoundKey(m, w, 0)
    else
      var x := ShiftRows(SubBytes(sb, Cipher(sb, w, n - 1, m)));
      AddRoundKey(if n == 10 then x else MixState(x), w, n)
  }

  // ---- the loops compute it ------------------------------------------------------------------------

  lemma SameMatrix(a: Matrix, b: Matrix)
    requires forall r: nat, c: nat :: r < 4 && c < 4 ==> a[r][c] == b[r][c]
    ensures a == b
  {
    forall r: nat | r < 4 ensures a[r] == b[r] {}
  }

  lemma ShiftIs(sb: seq<u8>, s: Block)
    requires |sb| == 256
    ensures State(SubShift(sb, s)) == ShiftRows(SubBytes(sb, State(s)))
  {
    hide Num, Shift;
    var a, b := State(SubShift(sb, s)), ShiftRows(SubBytes(sb, State(s)));
    forall r: nat, c: nat | r < 4 && c < 4 ensures a[r][c] == b[r][c] {
      ShiftForm(c, r);
      Wrap(c, r);
    }
    SameMatrix(a, b);
  }

  lemma Wrap(c: nat, r: nat)
    requires c < 4 && r < 4
    ensures (c + r) % 4 == if c + r < 4 then c + r else c + r - 4
  {
  }

  lemma MixIs(s: Block)
    ensures State(MixColumns(s)) == MixState(State(s))
  {
    hide MixColumns, MixState, State;
    var a, b := State(MixColumns(s)), MixState(State(s));
    forall r: nat, c: nat | r < 4 && c < 4 ensures a[r][c] == b[r][c] { MixedAt(s, r, c); }
    SameMatrix(a, b);
  }

  lemma StateAt(s: Block, r: nat, c: nat)
    requires r < 4 && c < 4
    ensures State(s)[r][c] == s[4 * c + r]
  {
  }

  lemma MixStateAt(m: Matrix, r: nat, c: nat)
    requires r < 4 && c < 4
    ensures MixState(m)[r][c] == MixedCell(m, r, c)
  {
    hide MixedCell;
  }

  lemma MixedAt(s: Block, r: nat, c: nat)
    requires r < 4 && c < 4
    ensures State(MixColumns(s))[r][c] == MixState(State(s))[r][c]
  {
    hide MixOf, Below, MixColumns, Mul, Sum4, State, MixState;
    ColumnsAt(s, 4 * c + r);
    BelowForm(c, r, 1); BelowForm(c, r, 2); BelowForm(c, r, 3);
    StateAt(MixColumns(s), r, c);
    StateAt(s, r, c); StateAt(s, Turn(r, 1), c); StateAt(s, Turn(r, 2), c); StateAt(s, Turn(r, 3), c);
    MixStateAt(State(s), r, c);
    MixCell(s[4 * c + r], s[4 * c + Turn(r, 1)], s[4 * c + Turn(r, 2)], s[4 * c + Turn(r, 3)]);
  }

  lemma MixCell(a: u8, b: u8, c: u8, d: u8)
    ensures MixOf(a, b, c, d) == Sum4(Mul(a, 2), Mul(b, 3), Mul(c, 1), Mul(d, 1))
  {
    hide MixOf, Sum4, Xt;
    MixIsSum(a, b, c, d);
    MulSmall(a); MulSmall(b); MulSmall(c); MulSmall(d);
  }

  lemma MulSmall(a: u8)
    ensures Mul(a, 1) == a && Mul(a, 2) == Xt(a) && Mul(a, 3) == Times3(a)
  {
    hide Xt;
    MulZero(Xt(Xt(a)));
    MulZero(Xt(a));
    assert 1 as u8 >> 1 == 0 && 2 as u8 >> 1 == 1 && 3 as u8 >> 1 == 1;
    AddLaws(a, 0, 0);
    AddLaws(Xt(a), 0, 0);
  }

  lemma AddKeyIs(s: Block, rk: seq<u8>, k: nat)
    requires |rk| == 176 && k <= 10
    ensures State(AddKey(s, rk, k)) == AddRoundKey(State(s), Words(rk), k)
  {
    hide Add;
    var a, b := State(AddKey(s, rk, k)), AddRoundKey(State(s), Words(rk), k);
    forall r: nat, c: nat | r < 4 && c < 4 ensures a[r][c] == b[r][c] {
      assert Words(rk)[4 * k + c][r] == rk[4 * (4 * k + c) + r];
    }
    SameMatrix(a, b);
  }

  /** The rounds are those of the standard, in its order. */
  lemma {:induction false} RoundsAreCipher(sb: seq<u8>, rk: seq<u8>, n: nat, s: Block)
    requires |sb| == 256 && |rk| == 176 && n <= 10
    ensures State(Rounds(sb, rk, n, s)) == Cipher(sb, Words(rk), n, State(s))
  {
    hide State, SubShift, MixColumns, AddKey, ShiftRows, SubBytes, MixState, AddRoundKey, Words;
    if n == 0 {
      AddKeyIs(s, rk, 0);
    } else {
      RoundsAreCipher(sb, rk, n - 1, s);
      var p := Rounds(sb, rk, n - 1, s);
      ShiftIs(sb, p);
      MixIs(SubShift(sb, p));
      AddKeyIs(if n < 10 then MixColumns(SubShift(sb, p)) else SubShift(sb, p), rk, n);
    }
  }

  // ---- the key expansion -----------------------------------------------------------------------------

  /** The first bytes of the ten round constants. */
  const RCON: seq<u8> := [0x01, 0x02, 0x04, 0x08, 0x10, 0x20, 0x40, 0x80, 0x1b, 0x36]

  lemma RconIs(k: nat)
    requires 1 <= k <= 10
    ensures Rcon(k) == RCON[k - 1]
  {
    assert Rcon(1) == 0x01 && Rcon(2) == 0x02 && Rcon(3) == 0x04 && Rcon(4) == 0x08 && Rcon(5) == 0x10;
    assert Rcon(6) == 0x20 && Rcon(7) == 0x40 && Rcon(8) == 0x80 && Rcon(9) == 0x1b && Rcon(10) == 0x36;
  }

  function XorWord(a: seq<u8>, b: seq<u8>): seq<u8>
    requires |a| == |b| == 4
  {
    [Add(a[0], b[0]), Add(a[1], b[1]), Add(a[2], b[2]), Add(a[3], b[3])]
  }

  function RotWord(a: seq<u8>): seq<u8>
    requires |a| == 4
  {
    [a[1], a[2], a[3], a[0]]
  }

  function SubWord(sb: seq<u8>, a: seq<u8>): seq<u8>
    requires |sb| == 256 && |a| == 4
  {
    [sb[Num(a[0])], sb[Num(a[1])], sb[Num(a[2])], sb[Num(a[3])]]
  }

  /** Word `i` of the schedule, from the ones before. */
  function NextWord(sb: seq<u8>, w: seq<seq<u8>>, i: nat): seq<u8>
    requires |sb| == 256 && 4 <= i < |w| == 44 && forall k :: 0 <= k < 44 ==> |w[k]| == 4
  {
    XorWord(w[i - 4],
            if i % 4 == 0 then XorWord(SubWord(sb, RotWord(w[i - 1])), [RCON[i / 4 - 1], 0, 0, 0]) else w[i - 1])
  }

  /** The schedule is the standard's key expansion. */
  lemma ScheduleIsExpansion(sb: seq<u8>, rk: seq<u8>, i: nat)
    requires |sb| == 256 && |rk| == 176 && Expanded(sb, rk, 176) && 4 <= i < 44
    ensures Words(rk)[i] == NextWord(sb, Words(rk), i)
  {
    hide Expanded, Words, Rcon, TempWord, XorWord, SubWord, RotWord;
    WordsAt(rk, i); WordsAt(rk, i - 4); WordsAt(rk, i - 1);
    ScheduleWord(sb, rk, i);
    TempIs(sb, rk, rk[4 * i - 4..4 * i], i);
  }

  lemma WordsAt(rk: seq<u8>, i: nat)
    requires |rk| == 176 && i < 44
    ensures Words(rk)[i] == rk[4 * i..4 * i + 4]
  {
  }

  lemma ScheduleWord(sb: seq<u8>, rk: seq<u8>, i: nat)
    requires |sb| == 256 && |rk| == 176 && Expanded(sb, rk, 176) && 4 <= i < 44
    ensures rk[4 * i..4 * i + 4] == XorWord(rk[4 * i - 16..4 * i - 12], TempWord(sb, rk, 4 * i))
  {
    hide Num, Add, Rcon, Temp, TempWord;
    WordTemp(sb, rk, 4 * i);
    forall j | 0 <= j < 4 ensures rk[4 * i + j] == Add(rk[4 * i + j - 16], TempWord(sb, rk, 4 * i)[j]) {
      assert rk[4 * i + j] == Add(rk[4 * i + j - 16], Temp(sb, rk, 4 * i + j));
    }
  }

  lemma TempIs(sb: seq<u8>, rk: seq<u8>, before: seq<u8>, i: nat)
    requires |sb| == 256 && |rk| == 176 && 4 <= i < 44 && before == rk[4 * i - 4..4 * i]
    ensures TempWord(sb, rk, 4 * i) ==
            if i % 4 == 0 then XorWord(SubWord(sb, RotWord(before)), [RCON[i / 4 - 1], 0, 0, 0]) else before
  {
    if i % 4 == 0 { RconIs(i / 4); }
    hide Num, Add, Rcon;
    assert (4 * i) % 16 == 0 <==> i % 4 == 0;
    assert i % 4 == 0 ==> (4 * i) / 16 == i / 4;
    AddLaws(sb[Num(before[2])], 0, 0);
    AddLaws(sb[Num(before[3])], 0, 0);
    AddLaws(sb[Num(before[0])], 0, 0);
  }

  // ---- the S-box -----------------------------------------------------------------------------------------

  function Bit(q: u8, i: nat): u8
    requires i < 8
  {
    (q >> i) & 1
  }

  /** The affine transformation of section 5.1.1, bit by bit. */
  lemma AffineBits(q: u8, i: nat)
    requires i < 8
    ensures Bit(Affine(q), i) == Bit(q, i) ^ Bit(q, (i + 4) % 8) ^ Bit(q, (i + 5) % 8) ^ Bit(q, (i + 6) % 8)
                                 ^ Bit(q, (i + 7) % 8) ^ Bit(0x63, i)
  {
    if i == 0 {} else if i == 1 {} else if i == 2 {} else if i == 3 {}
    else if i == 4 {} else if i == 5 {} else if i == 6 {} else {}
  }

  /** Encryption under a key, from the standard's own definitions. */
  lemma EncIsCipher(k: Key, key: seq<u8>, s: Block)
    requires IsKey(k, key)
    ensures State(Enc(k, s)) == Cipher(k.sb, Words(k.rk), 10, State(s))
    ensures forall i :: 4 <= i < 44 ==> Words(k.rk)[i] == NextWord(k.sb, Words(k.rk), i)
    ensures forall i :: 0 <= i < 4 ==> Words(k.rk)[i] == key[4 * i..4 * i + 4]
  {
    hide SboxOk, Inverse, Rounds, Cipher, Expanded, NextWord, Words;
    RoundsAreCipher(k.sb, k.rk, 10, s);
    forall i | 4 <= i < 44 ensures Words(k.rk)[i] == NextWord(k.sb, Words(k.rk), i) {
      ScheduleIsExpansion(k.sb, k.rk, i);
    }
    forall i | 0 <= i < 4 ensures Words(k.rk)[i] == key[4 * i..4 * i + 4] {
      WordsAt(k.rk, i);
      assert k.rk[..16][4 * i..4 * i + 4] == k.rk[4 * i..4 * i + 4];
    }
  }
}
