/** The objects of a slab, the freelist threaded through the free ones, and the doubly linked list of
    slabs with room (kernel/mm/heap.c:188-309). Addresses count bytes from the start of the heap; no
    object is at 0, which stands for no object. */
module HeapSlabSpec {
  const PAGE: nat := 4096
  const SLAB_PAGES: nat := 4
  const SLAB_BYTES: nat := 16384
  const SLAB_HDR: nat := 64
  const LARGE_HDR: nat := 32
  const CLASSES: nat := 8
  const MAX_SMALL: nat := 2048

  /** The words of memory that hold freelist links, by address. */
  type Memory = map<nat, nat>

  /** The links of a list of slabs, by page; -1 is none. */
  type Links = map<nat, int>

  /** Object sizes: 16, 32, ... 2048. */
  function ClassSize(c: nat): (s: nat)
    requires c < CLASSES
    ensures 16 <= s <= MAX_SMALL && s % 16 == 0
  {
    if c == 0 then 16 else if c == 1 then 32 else if c == 2 then 64 else if c == 3 then 128
    else if c == 4 then 256 else if c == 5 then 512 else if c == 6 then 1024 else 2048
  }

  /** Objects per slab. */
  function Total(c: nat): (n: nat)
    requires c < CLASSES
    ensures n > 0
  {
    (SLAB_BYTES - SLAB_HDR) / ClassSize(c)
  }

  /** Sizes double from class to class, and a slab holds as many objects as fit behind its header. */
  lemma Classes(c: nat)
    requires c < CLASSES
    ensures ClassSize(0) == 16 && (c > 0 ==> ClassSize(c) == 2 * ClassSize(c - 1))
    ensures 64 + Total(c) * ClassSize(c) <= 16384 < 64 + (Total(c) + 1) * ClassSize(c)
  {
  }

  function ObjAddr(page: nat, c: nat, i: nat): nat
    requires c < CLASSES
  {
    page * PAGE + SLAB_HDR + i * ClassSize(c)
  }

  /** An object lies in its slab, behind the header, at a multiple of 16. */
  lemma ObjInside(page: nat, c: nat, i: nat)
    requires c < CLASSES && i < Total(c)
    ensures page * PAGE + SLAB_HDR <= ObjAddr(page, c, i)
    ensures ObjAddr(page, c, i) + ClassSize(c) <= (page + SLAB_PAGES) * PAGE && ObjAddr(page, c, i) % 16 == 0
  {
    var s := ClassSize(c);
    assert Total(c) * s <= SLAB_BYTES - SLAB_HDR;
    Times(i + 1, Total(c), s);
    assert (i + 1) * s == i * s + s;
    Sixteen(i, s);
  }

  lemma Times(a: nat, b: nat, s: nat)
    requires a <= b
    ensures a * s <= b * s
  {
  }

  lemma Sixteen(i: nat, s: nat)
    requires s % 16 == 0
    ensures i * s % 16 == 0
  {
    var k := s / 16;
    assert s == 16 * k;
    assert i * s == 16 * (i * k);
  }

  /** Two objects of a slab do not overlap. */
  lemma ObjApart(page: nat, c: nat, i: nat, j: nat)
    requires c < CLASSES && i < j
    ensures ObjAddr(page, c, i) + ClassSize(c) <= ObjAddr(page, c, j)
  {
    Times(i + 1, j, ClassSize(c));
    assert (i + 1) * ClassSize(c) == i * ClassSize(c) + ClassSize(c);
  }

  lemma ObjInjective(page: nat, c: nat, i: nat, j: nat)
    requires c < CLASSES && i != j
    ensures ObjAddr(page, c, i) != ObjAddr(page, c, j)
  {
    if i < j { ObjApart(page, c, i, j); } else { ObjApart(page, c, j, i); }
  }

  // ---- the freelist ------------------------------------------------------------------------------

  /** The word in memory at an address. */
  function Word(mem: Memory, a: nat): nat { if a in mem then mem[a] else 0 }

  function Head(page: nat, c: nat, fl: seq<nat>): nat
    requires c < CLASSES
  {
    if fl == [] then 0 else ObjAddr(page, c, fl[0])
  }

  predicate Distinct(fl: seq<nat>) { forall i, j :: 0 <= i < j < |fl| ==> fl[i] != fl[j] }

  /** From `head` the list runs through the objects `fl`, each once, and ends. */
  predicate Threaded(mem: Memory, page: nat, c: nat, head: nat, fl: seq<nat>) {
    && c < CLASSES && head == Head(page, c, fl) && Distinct(fl)
    && (forall k :: 0 <= k < |fl| ==> fl[k] < Total(c))
    && (forall k :: 0 <= k < |fl| ==> Word(mem, ObjAddr(page, c, fl[k])) == Head(page, c, fl[k + 1..]))
  }

  lemma PopThread(mem: Memory, page: nat, c: nat, head: nat, fl: seq<nat>)
    requires Threaded(mem, page, c, head, fl) && fl != []
    ensures Threaded(mem, page, c, Word(mem, head), fl[1..]) && fl[0] !in fl[1..]
  {
    hide ObjAddr, Total;
    var r := fl[1..];
    forall k | 0 <= k < |r| ensures Word(mem, ObjAddr(page, c, r[k])) == Head(page, c, r[k + 1..]) {
      assert r[k] == fl[k + 1] && r[k + 1..] == fl[k + 2..];
    }
  }

  lemma PushThread(mem: Memory, page: nat, c: nat, head: nat, fl: seq<nat>, i: nat)
    requires Threaded(mem, page, c, head, fl) && i < Total(c) && i !in fl
    ensures Threaded(mem[ObjAddr(page, c, i) := head], page, c, ObjAddr(page, c, i), [i] + fl)
  {
    var r, mem' := [i] + fl, mem[ObjAddr(page, c, i) := head];
    forall k | 0 <= k < |r| ensures Word(mem', ObjAddr(page, c, r[k])) == Head(page, c, r[k + 1..]) {
      if k > 0 {
        ObjInjective(page, c, i, fl[k - 1]);
        assert r[k + 1..] == fl[k..];
      } else {
        assert r[1..] == fl;
      }
    }
  }

  /** Linking an object in front that is on the list already makes a cycle: no list runs through it. */
  lemma Cycle(mem: Memory, page: nat, c: nat, head: nat, fl: seq<nat>, j: nat, fl': seq<nat>)
    requires Threaded(mem, page, c, head, fl) && j < |fl|
    ensures !Threaded(mem[ObjAddr(page, c, fl[j]) := head], page, c, ObjAddr(page, c, fl[j]), fl')
  {
    hide ObjAddr, Total;
    if Threaded(mem[ObjAddr(page, c, fl[j]) := head], page, c, ObjAddr(page, c, fl[j]), fl') {
      Around(mem, page, c, head, fl, j, fl', j);
    }
  }

  /** Following the links from the object linked in leads through the old list back to it. */
  lemma {:induction false} Around(mem: Memory, page: nat, c: nat, head: nat, fl: seq<nat>, j: nat, fl': seq<nat>,
                                  m: nat)
    requires Threaded(mem, page, c, head, fl) && m <= j < |fl|
    requires Threaded(mem[ObjAddr(page, c, fl[j]) := head], page, c, ObjAddr(page, c, fl[j]), fl')
    ensures m + 1 < |fl'| && fl'[0] == fl[j] && fl'[m + 1] == fl[m]
  {
    hide ObjAddr, Total;
    SameObj(page, c, fl', fl[j]);
    if m > 0 {
      Around(mem, page, c, head, fl, j, fl', m - 1);
      ObjInjective(page, c, fl[m - 1], fl[j]);
      assert Word(mem, ObjAddr(page, c, fl[m - 1])) == Head(page, c, fl[m..]);
    }
    SameObj(page, c, fl'[m + 1..], fl[m]);
  }

  lemma SameObj(page: nat, c: nat, fl: seq<nat>, i: nat)
    requires c < CLASSES && Head(page, c, fl) == ObjAddr(page, c, i)
    ensures fl != [] && fl[0] == i
  {
    assert ObjAddr(page, c, i) > 0;
    if fl != [] && fl[0] != i { ObjInjective(page, c, fl[0], i); }
  }

  const WORD: nat := 8

  /** `mem'` differs from `mem` only in words that overlap the bytes [a, a + n). */
  ghost predicate WroteBytes(mem: Memory, mem': Memory, a: nat, n: nat) {
    forall x: nat :: x + WORD <= a || a + n <= x ==> Word(mem', x) == Word(mem, x)
  }

  /** Bytes that overlap none of its links leave the list alone. */
  lemma ThreadBytes(mem: Memory, mem': Memory, page: nat, c: nat, head: nat, fl: seq<nat>, a: nat, n: nat)
    requires Threaded(mem, page, c, head, fl) && WroteBytes(mem, mem', a, n)
    requires forall k :: 0 <= k < |fl| ==> ObjAddr(page, c, fl[k]) + WORD <= a || a + n <= ObjAddr(page, c, fl[k])
    ensures Threaded(mem', page, c, head, fl)
  {
    hide ObjAddr, Total, Word;
  }

  /** Writing elsewhere leaves the list alone. */
  lemma ThreadFrame(mem: Memory, page: nat, c: nat, head: nat, fl: seq<nat>, a: nat, v: nat)
    requires Threaded(mem, page, c, head, fl) && forall k :: 0 <= k < |fl| ==> ObjAddr(page, c, fl[k]) != a
    ensures Threaded(mem[a := v], page, c, head, fl)
  {
    hide ObjAddr, Total;
  }

  /** Two words apart by slab: one in slab `p`, the object in slab `q`. */
  lemma OtherSlab(p: nat, q: nat, c: nat, i: nat, a: nat)
    requires c < CLASSES && i < Total(c) && p * PAGE <= a < (p + SLAB_PAGES) * PAGE
    requires p + SLAB_PAGES <= q || q + SLAB_PAGES <= p
    ensures ObjAddr(q, c, i) != a
  {
    ObjInside(q, c, i);
  }

  /** All objects from `i` on. */
  function From(i: nat, n: nat): (s: seq<nat>)
    requires i <= n
    ensures |s| == n - i && forall k :: 0 <= k < n - i ==> s[k] == i + k
    decreases n - i
  {
    if i == n then [] else [i] + From(i + 1, n)
  }

  // ---- the partial list ----------------------------------------------------------------------------

  function First(pl: seq<nat>): int { if pl == [] then -1 else pl[0] }

  function After(pl: seq<nat>, k: nat): int { if k + 1 < |pl| then pl[k + 1] else -1 }

  function Before(pl: seq<nat>, k: nat): int
    requires k < |pl|
  {
    if k > 0 then pl[k - 1] else -1
  }

  /** From `head` the slabs are linked both ways in the order `pl`. */
  predicate Chain(next: Links, prev: Links, head: int, pl: seq<nat>) {
    && head == First(pl) && Distinct(pl)
    && (forall k :: 0 <= k < |pl| ==> pl[k] in next && next[pl[k]] == After(pl, k))
    && (forall k :: 0 <= k < |pl| ==> pl[k] in prev && prev[pl[k]] == Before(pl, k))
  }

  function Set(m: Links, k: int, v: int): Links { if k >= 0 then m[k := v] else m }

  lemma PushChain(next: Links, prev: Links, head: int, pl: seq<nat>, s: nat)
    requires Chain(next, prev, head, pl) && s !in pl
    ensures Chain(next[s := head], Set(prev[s := -1], head, s), s, [s] + pl)
  {
    var r := [s] + pl;
    forall k | 0 <= k < |r| ensures r[k] in next[s := head] && next[s := head][r[k]] == After(r, k) {
      if k > 0 { assert r[k] == pl[k - 1] && r[k] in pl; }
    }
    var prev' := Set(prev[s := -1], head, s);
    forall k | 0 <= k < |r| ensures r[k] in prev' && prev'[r[k]] == Before(r, k) {
      if k > 0 { assert r[k] == pl[k - 1] && r[k] in pl; }
    }
  }

  function Without(pl: seq<nat>, k: nat): seq<nat>
    requires k < |pl|
  {
    pl[..k] + pl[k + 1..]
  }

  lemma RemoveChain(next: Links, prev: Links, head: int, pl: seq<nat>, k: nat)
    requires Chain(next, prev, head, pl) && k < |pl|
    ensures Chain(Set(next, prev[pl[k]], next[pl[k]])[pl[k] := -1], Set(prev, next[pl[k]], prev[pl[k]])[pl[k] := -1],
                  if prev[pl[k]] >= 0 then head else next[pl[k]], Without(pl, k))
  {
    hide After, Before;
    RemoveDistinct(pl, k);
    RemovedHead(next, prev, head, pl, k);
    var s, r := pl[k], Without(pl, k);
    var next', prev' := Set(next, prev[s], next[s])[s := -1], Set(prev, next[s], prev[s])[s := -1];
    forall j | 0 <= j < |r| ensures r[j] in next' && next'[r[j]] == After(r, j) {
      RemovedNext(next, prev, head, pl, k, j);
    }
    forall j | 0 <= j < |r| ensures r[j] in prev' && prev'[r[j]] == Before(r, j) {
      RemovedPrev(next, prev, head, pl, k, j);
    }
  }

  lemma RemovedHead(next: Links, prev: Links, head: int, pl: seq<nat>, k: nat)
    requires Chain(next, prev, head, pl) && k < |pl|
    ensures First(Without(pl, k)) == if prev[pl[k]] >= 0 then head else next[pl[k]]
  {
    ChainAt(next, prev, head, pl, k);
    hide Chain;
  }

  lemma RemovedNext(next: Links, prev: Links, head: int, pl: seq<nat>, k: nat, j: nat)
    requires Chain(next, prev, head, pl) && k < |pl| && j < |pl| - 1 && pl[k] in next && pl[k] in prev
    ensures var next' := Set(next, prev[pl[k]], next[pl[k]])[pl[k] := -1];
            Without(pl, k)[j] in next' && next'[Without(pl, k)[j]] == After(Without(pl, k), j)
  {
    hide Chain, After, Before, Without;
    var i := if j < k then j else j + 1;
    ChainAt(next, prev, head, pl, i);
    ChainAt(next, prev, head, pl, k);
    WithoutAt(pl, k, j);
    Neighbours(pl, k, i);
  }

  lemma RemovedPrev(next: Links, prev: Links, head: int, pl: seq<nat>, k: nat, j: nat)
    requires Chain(next, prev, head, pl) && k < |pl| && j < |pl| - 1 && pl[k] in next && pl[k] in prev
    ensures var prev' := Set(prev, next[pl[k]], prev[pl[k]])[pl[k] := -1];
            Without(pl, k)[j] in prev' && prev'[Without(pl, k)[j]] == Before(Without(pl, k), j)
  {
    hide Chain, After, Before, Without;
    var i := if j < k then j else j + 1;
    ChainAt(next, prev, head, pl, i);
    ChainAt(next, prev, head, pl, k);
    WithoutAt(pl, k, j);
    Neighbours(pl, k, i);
  }

  lemma ChainAt(next: Links, prev: Links, head: int, pl: seq<nat>, k: nat)
    requires Chain(next, prev, head, pl) && k < |pl|
    ensures pl[k] in next && next[pl[k]] == After(pl, k) && pl[k] in prev && prev[pl[k]] == Before(pl, k)
    ensures Distinct(pl)
  {
    hide After, Before;
  }

  lemma WithoutAt(pl: seq<nat>, k: nat, j: nat)
    requires k < |pl| && j < |pl| - 1
    ensures |Without(pl, k)| == |pl| - 1 && Without(pl, k)[j] == pl[if j < k then j else j + 1]
    ensures After(Without(pl, k), j) == if j + 1 == k then After(pl, k) else After(pl, if j < k then j else j + 1)
    ensures Before(Without(pl, k), j) == if j == k then Before(pl, k) else Before(pl, if j < k then j else j + 1)
  {
  }

  /** Which element's neighbour `k` is. */
  lemma Neighbours(pl: seq<nat>, k: nat, i: nat)
    requires Distinct(pl) && k < |pl| && i < |pl| && i != k
    ensures pl[i] != pl[k] && (Before(pl, k) == pl[i] <==> i + 1 == k) && (After(pl, k) == pl[i] <==> i == k + 1)
  {
  }

  lemma RemoveDistinct(pl: seq<nat>, k: nat)
    requires Distinct(pl) && k < |pl|
    ensures Distinct(Without(pl, k)) && forall x :: x in Without(pl, k) <==> x in pl && x != pl[k]
  {
    var r := Without(pl, k);
    forall i, j | 0 <= i < j < |r| ensures r[i] != r[j] {
      assert r[i] == (if i < k then pl[i] else pl[i + 1]) && r[j] == (if j < k then pl[j] else pl[j + 1]);
    }
    forall x | x in pl && x != pl[k] ensures x in r {
      var i :| 0 <= i < |pl| && pl[i] == x;
      assert x == if i < k then r[i] else r[i - 1];
    }
  }

  /** Another list, sharing no slab, is not affected by changed links. */
  lemma ChainFrame(next: Links, prev: Links, next': Links, prev': Links, head: int, pl: seq<nat>)
    requires Chain(next, prev, head, pl)
    requires forall x :: x in pl ==>
               x in next' && x in prev' && x in next && x in prev && next'[x] == next[x] && prev'[x] == prev[x]
    ensures Chain(next', prev', head, pl)
  {
  }
}
