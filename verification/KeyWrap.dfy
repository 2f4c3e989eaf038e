/** AES key unwrap, and that it inverts the index-based key wrap of section 2.2.1 of RFC 3394
    (kernel/lib/crypto.c:208-227). */
module KeyWrap {
  import opened Gf256
  import opened AesTables
  import opened AesBlock
  import opened Aes
  import opened Division

  /** The register A and the 64-bit blocks R[1..n] as bytes. */
  datatype Regs = Regs(a: seq<u8>, r: seq<u8>)

  predicate RegsOk(x: Regs, n: nat) { |x.a| == 8 && |x.r| == 8 * n }

  /** The step counter as eight bytes, most significant first. */
  function Counter(t: nat): (s: seq<u8>)
    ensures |s| == 8
  {
    seq(8, i requires 0 <= i < 8 => Byte(t / Pow256(7 - i) % 256))
  }

  function Pow256(k: nat): (p: nat)
    ensures p > 0
  {
    if k == 0 then 1 else 256 * Pow256(k - 1)
  }

  function Xor8(a: seq<u8>, b: seq<u8>): (s: seq<u8>)
    requires |a| == 8 && |b| == 8
    ensures |s| == 8
  {
    seq(8, i requires 0 <= i < 8 => Add(a[i], b[i]))
  }

  lemma XorTwice(a: seq<u8>, b: seq<u8>)
    requires |a| == 8 && |b| == 8
    ensures Xor8(Xor8(a, b), b) == a
  {
    hide Add;
    forall i | 0 <= i < 8 ensures Xor8(Xor8(a, b), b)[i] == a[i] { AddLaws(a[i], b[i], 0); }
  }

  /** `r` with its `i`-th group of eight bytes replaced. */
  function Put(r: seq<u8>, i: nat, x: seq<u8>): (s: seq<u8>)
    requires 8 * i + 8 <= |r| && |x| == 8
    ensures |s| == |r|
  {
    r[..8 * i] + x + r[8 * i + 8..]
  }

  lemma PutBack(r: seq<u8>, i: nat, x: seq<u8>)
    requires 8 * i + 8 <= |r| && |x| == 8
    ensures Put(r, i, x)[8 * i..8 * i + 8] == x
    ensures Put(Put(r, i, x), i, r[8 * i..8 * i + 8]) == r
  {
    var s := Put(r, i, x);
    assert s[..8 * i] == r[..8 * i] && s[8 * i + 8..] == r[8 * i + 8..];
  }

  /** Which block step `t`, counted from 1, works on. */
  function Index(n: nat, t: nat): (i: nat)
    requires 0 < t && n > 0
    ensures i < n
  {
    (t - 1) % n
  }

  /** One step of wrapping, and the step that undoes it. */
  ghost function Up(k: Key, n: nat, t: nat, x: Regs): Regs
    requires KeyOk(k) && RegsOk(x, n) && n > 0 && t > 0
  {
    var i := Index(n, t);
    var b := Enc(k, x.a + x.r[8 * i..8 * i + 8]);
    Regs(Xor8(b[..8], Counter(t)), Put(x.r, i, b[8..]))
  }

  ghost function Down(k: Key, n: nat, t: nat, x: Regs): Regs
    requires KeyOk(k) && RegsOk(x, n) && n > 0 && t > 0
  {
    var i := Index(n, t);
    var b := Dec(k, Xor8(x.a, Counter(t)) + x.r[8 * i..8 * i + 8]);
    Regs(b[..8], Put(x.r, i, b[8..]))
  }

  lemma UpDown(k: Key, n: nat, t: nat, x: Regs)
    requires KeyOk(k) && RegsOk(x, n) && n > 0 && t > 0
    ensures RegsOk(Up(k, n, t, x), n) && RegsOk(Down(k, n, t, x), n)
    ensures Down(k, n, t, Up(k, n, t, x)) == x && Up(k, n, t, Down(k, n, t, x)) == x
  {
    hide Put, Xor8, Counter, Index;
    var i, c := Index(n, t), Counter(t);
    var g := x.r[8 * i..8 * i + 8];
    var b := Enc(k, x.a + g);
    RoundTrip(k, x.a + g);
    XorTwice(b[..8], c);
    PutBack(x.r, i, b[8..]);
    assert b[..8] + b[8..] == b && (x.a + g)[..8] == x.a && (x.a + g)[8..] == g;
    var d := Xor8(x.a, c) + g;
    var e := Dec(k, d);
    RoundTrip(k, d);
    PutBack(x.r, i, e[8..]);
    XorTwice(x.a, c);
    assert e[..8] + e[8..] == e && d[..8] == Xor8(x.a, c) && d[8..] == g;
  }

  /** The first `t` steps of wrapping, and the last `t` of unwrapping. */
  ghost function UpTo(k: Key, n: nat, t: nat, x: Regs): (y: Regs)
    requires KeyOk(k) && RegsOk(x, n) && (n > 0 || t == 0)
    ensures RegsOk(y, n)
  {
    if t == 0 then x else
      UpDown(k, n, t, UpTo(k, n, t - 1, x));
      Up(k, n, t, UpTo(k, n, t - 1, x))
  }

  ghost function DownFrom(k: Key, n: nat, t: nat, x: Regs): (y: Regs)
    requires KeyOk(k) && RegsOk(x, n) && (n > 0 || t == 0)
    ensures RegsOk(y, n)
  {
    if t == 0 then x else
      UpDown(k, n, t, x);
      DownFrom(k, n, t - 1, Down(k, n, t, x))
  }

  lemma {:induction false} DownUp(k: Key, n: nat, t: nat, x: Regs)
    requires KeyOk(k) && RegsOk(x, n) && (n > 0 || t == 0)
    ensures DownFrom(k, n, t, UpTo(k, n, t, x)) == x && UpTo(k, n, t, DownFrom(k, n, t, x)) == x
  {
    hide Up, Down;
    if t > 0 {
      UpDown(k, n, t, UpTo(k, n, t - 1, x));
      DownUp(k, n, t - 1, x);
      UpDown(k, n, t, x);
      DownUp(k, n, t - 1, Down(k, n, t, x));
    }
  }

  /** The initial value: eight bytes a6. */
  function Iv(): (s: seq<u8>)
    ensures |s| == 8
  {
    [0xa6, 0xa6, 0xa6, 0xa6, 0xa6, 0xa6, 0xa6, 0xa6]
  }

  /** Key wrap as the RFC defines it. */
  ghost function Wrap(k: Key, plain: seq<u8>, n: nat): (c: seq<u8>)
    requires KeyOk(k) && |plain| == 8 * n
    ensures |c| == 8 * n + 8
  {
    var x := UpTo(k, n, 6 * n, Regs(Iv(), plain));
    x.a + x.r
  }

  ghost function Unwrapped(k: Key, cipher: seq<u8>, n: nat): (x: Regs)
    requires KeyOk(k) && |cipher| == 8 * n + 8
    ensures RegsOk(x, n)
  {
    DownFrom(k, n, 6 * n, Regs(cipher[..8], cipher[8..]))
  }

  /** Unwrapping recovers what was wrapped and accepts it. */
  lemma UnwrapWrap(k: Key, plain: seq<u8>, n: nat)
    requires KeyOk(k) && |plain| == 8 * n
    ensures Unwrapped(k, Wrap(k, plain, n), n) == Regs(Iv(), plain)
  {
    hide UpTo, DownFrom;
    var x := UpTo(k, n, 6 * n, Regs(Iv(), plain));
    DownUp(k, n, 6 * n, Regs(Iv(), plain));
    assert (x.a + x.r)[..8] == x.a && (x.a + x.r)[8..] == x.r;
  }

  /** It accepts nothing else: an accepted ciphertext is the wrap of the result. */
  lemma AcceptedIsWrap(k: Key, cipher: seq<u8>, n: nat)
    requires KeyOk(k) && |cipher| == 8 * n + 8 && Unwrapped(k, cipher, n).a == Iv()
    ensures Wrap(k, Unwrapped(k, cipher, n).r, n) == cipher
  {
    hide UpTo, DownFrom;
    DownUp(k, n, 6 * n, Regs(cipher[..8], cipher[8..]));
    assert cipher[..8] + cipher[8..] == cipher;
  }

  /** Both directions: a ciphertext is the wrap of `plain` exactly if it is accepted and gives `plain`. */
  lemma WrapIff(k: Key, cipher: seq<u8>, n: nat, plain: seq<u8>)
    requires KeyOk(k) && |cipher| == 8 * n + 8 && |plain| == 8 * n
    ensures cipher == Wrap(k, plain, n) <==> Unwrapped(k, cipher, n) == Regs(Iv(), plain)
  {
    hide Wrap, Unwrapped, KeyOk;
    UnwrapWrap(k, plain, n);
    if Unwrapped(k, cipher, n).a == Iv() { AcceptedIsWrap(k, cipher, n); }
  }

  // ---- the loop ----------------------------------------------------------------------------------

  /** One step, in place on block `i` of the buffer. */
  method StepDown(k: Aes128, ghost n: nat, t: nat, i: nat, a: seq<u8>, plain: array<u8>) returns (a': seq<u8>)
    requires k.Valid() && RegsOk(Regs(a, plain[..]), n) && n > 0 && t > 0 && i == Index(n, t)
    requires plain != k.sbox && plain != k.isbox && plain != k.rk
    modifies plain
    ensures |a'| == 8 && Regs(a', plain[..]) == old(Down(k.View(), n, t, Regs(a, plain[..])))
  {
    hide Rounds, Unrounds, SboxOk, Inverse, Counter, Xor8;
    ghost var g := plain[8 * i..8 * i + 8];
    var b := new u8[16];
    Load(b, XorCounter(a, t), plain, i);
    k.Decrypt(b, b);
    a' := b[..8];
    Store(plain, i, b);
  }

  function XorCounter(a: seq<u8>, t: nat): (s: seq<u8>)
    requires |a| == 8
    ensures |s| == 8
  {
    Xor8(a, Counter(t))
  }

  method Load(b: array<u8>, a: seq<u8>, plain: array<u8>, i: nat)
    requires b.Length == 16 && |a| == 8 && 8 * i + 8 <= plain.Length && b != plain
    modifies b
    ensures b[..] == a + plain[8 * i..8 * i + 8]
  {
    for j := 0 to 8
      invariant forall x :: 0 <= x < j ==> b[x] == a[x]
      invariant forall x :: 8 <= x < 8 + j ==> b[x] == plain[8 * i + x - 8]
    {
      b[j], b[8 + j] := a[j], plain[8 * i + j];
    }
  }

  method Store(plain: array<u8>, i: nat, b: array<u8>)
    requires b.Length == 16 && 8 * i + 8 <= plain.Length && b != plain
    modifies plain
    ensures plain[..] == Put(old(plain[..]), i, b[8..])
  {
    for j := 0 to 8
      invariant forall x :: 0 <= x < plain.Length ==>
                  plain[x] == if 8 * i <= x < 8 * i + j then b[8 + x - 8 * i] else old(plain[x])
    {
      plain[8 * i + j] := b[8 + j];
    }
  }

  /** Unwrap `n` blocks under `kek`. The result is accepted exactly if the register came back to its
      initial value: for every `p`, exactly if the ciphertext is the wrap of `p` is `p` left in `plain` and
      accepted. */
  method AesUnwrap(kek: array<u8>, n: nat, cipher: array<u8>, plain: array<u8>) returns (ok: bool)
    requires kek.Length == 16 && cipher.Length == 8 * n + 8 && plain.Length == 8 * n && plain != cipher
    modifies plain
    ensures forall k :: IsKey(k, old(kek[..])) ==>
              plain[..] == Unwrapped(k, cipher[..], n).r && (ok <==> Unwrapped(k, cipher[..], n).a == Iv())
    ensures forall k, p: seq<u8> :: IsKey(k, old(kek[..])) && |p| == 8 * n ==>
              (cipher[..] == Wrap(k, p, n) <==> ok && plain[..] == p)
  {
    hide Expanded, Unrounds, Rounds, SboxOk, Inverse, DownFrom, Down, KeyOk, IsKey, Wrap;
    ghost var key, c := kek[..], cipher[..];
    var aes := new Aes128(kek);
    ghost var l := aes.View();
    var a := cipher[..8];
    CopyFrom(cipher, plain);
    assert aes.View() == l;
    a := Loop(aes, n, a, plain);
    ok := a == Iv();
    assert Unwrapped(l, c, n) == Regs(a, plain[..]);
    forall k | IsKey(k, key) ensures k == l { KeyUnique(k, l, key); }
    forall p: seq<u8> | |p| == 8 * n ensures c == Wrap(l, p, n) <==> ok && plain[..] == p { WrapIff(l, c, n, p); }
  }

  method CopyFrom(cipher: array<u8>, plain: array<u8>)
    requires cipher.Length == 8 + plain.Length && plain != cipher
    modifies plain
    ensures plain[..] == cipher[8..]
  {
    for i := 0 to plain.Length
      invariant forall x :: 0 <= x < i ==> plain[x] == cipher[8 + x]
    {
      plain[i] := cipher[8 + i];
    }
  }

  method Loop(k: Aes128, n: nat, a0: seq<u8>, plain: array<u8>) returns (a: seq<u8>)
    requires k.Valid() && RegsOk(Regs(a0, plain[..]), n)
    requires plain != k.sbox && plain != k.isbox && plain != k.rk
    modifies plain
    ensures Regs(a, plain[..]) == old(DownFrom(k.View(), n, 6 * n, Regs(a0, plain[..])))
  {
    hide Down, KeyOk;
    ghost var end := DownFrom(k.View(), n, 6 * n, Regs(a0, plain[..]));
    a := a0;
    for j := 6 downto 0
      invariant k.Valid() && |a| == 8 && DownFrom(k.View(), n, n * j, Regs(a, plain[..])) == end
    {
      for i := n downto 0
        invariant k.Valid() && |a| == 8 && DownFrom(k.View(), n, n * j + i, Regs(a, plain[..])) == end
      {
        IndexIs(n, j, i);
        a := StepDown(k, n, n * j + i + 1, i, a, plain);
      }
    }
  }

  lemma IndexIs(n: nat, j: nat, i: nat)
    requires i < n
    ensures Index(n, n * j + i + 1) == i && n * j + i + 1 > 0
  {
    ModOf(n, j, i);
  }
}
