/** The physical frame allocator: a bitmap of used frames, 16-bit reference counts, a count of used
    frames and a search hint (kernel/mm/pmm.c:34-55, 156-267). Addresses are in bytes. */
module Frames {
  const PAGE: nat := 4096
  const REF_LIMIT: nat := 0x1_0000

  // ---- counting used frames --------------------------------------------------------------------

  function UsedCount(bits: seq<bool>): nat {
    if bits == [] then 0 else UsedCount(bits[..|bits| - 1]) + if bits[|bits| - 1] then 1 else 0
  }

  lemma {:induction false} UsedPut(bits: seq<bool>, i: nat, b: bool)
    requires i < |bits|
    ensures UsedCount(bits[i := b]) == UsedCount(bits) + (if b then 1 else 0) - (if bits[i] then 1 else 0)
  {
    var n := |bits| - 1;
    if i < n {
      UsedPut(bits[..n], i, b);
      assert bits[i := b][..n] == bits[..n][i := b];
    } else {
      assert bits[i := b][..n] == bits[..n];
    }
  }

  /** The used count is the number of used frames. */
  lemma {:induction false} UsedIsSize(bits: seq<bool>)
    ensures UsedCount(bits) == |UsedSet(bits)|
  {
    if bits != [] {
      var n := |bits| - 1;
      UsedIsSize(bits[..n]);
      assert UsedSet(bits) == UsedSet(bits[..n]) + if bits[n] then {n} else {};
    }
  }

  ghost function UsedSet(bits: seq<bool>): set<int> { set i | 0 <= i < |bits| && bits[i] }

  // ---- runs of free frames ---------------------------------------------------------------------

  ghost predicate FreeRun(bits: seq<bool>, i: nat, count: nat) {
    i + count <= |bits| && forall k :: i <= k < i + count ==> !bits[k]
  }

  predicate UsedBelow(bits: seq<bool>, hint: nat) { hint <= |bits| && forall k :: 0 <= k < hint ==> bits[k] }

  /** No run of `count` free frames starts below `i`. */
  ghost predicate NoRunBelow(bits: seq<bool>, i: nat, count: nat) {
    forall j: nat :: j < i ==> !FreeRun(bits, j, count)
  }

  /** A used frame within reach of every start up to it rules those starts out. */
  lemma NoRunPast(bits: seq<bool>, i: nat, used: nat, count: nat)
    requires NoRunBelow(bits, i, count) && i <= used < |bits| && bits[used] && used < i + count
    ensures NoRunBelow(bits, used + 1, count)
  {
    forall j: nat | j < used + 1 ensures !FreeRun(bits, j, count) {
      if i <= j { assert j <= used < j + count; }
    }
  }

  lemma NoRunBelowHint(bits: seq<bool>, hint: nat, count: nat)
    requires UsedBelow(bits, hint) && count > 0
    ensures NoRunBelow(bits, hint, count)
  {
    forall j: nat | j < hint ensures !FreeRun(bits, j, count) { assert bits[j]; }
  }

  /** The frames [i, i + count) marked used. */
  function Taken(bits: seq<bool>, i: nat, count: nat): (r: seq<bool>)
    requires i + count <= |bits|
    ensures |r| == |bits|
  {
    if count == 0 then bits else Taken(bits, i, count - 1)[i + count - 1 := true]
  }

  lemma {:induction false} TakenAt(bits: seq<bool>, i: nat, count: nat, k: nat)
    requires i + count <= |bits| && k < |bits|
    ensures Taken(bits, i, count)[k] == (bits[k] || i <= k < i + count)
  {
    if count > 0 { TakenAt(bits, i, count - 1, k); }
  }

  lemma {:induction false} TakenCount(bits: seq<bool>, i: nat, count: nat)
    requires FreeRun(bits, i, count)
    ensures UsedCount(Taken(bits, i, count)) == UsedCount(bits) + count
  {
    if count > 0 {
      TakenCount(bits, i, count - 1);
      TakenAt(bits, i, count - 1, i + count - 1);
      UsedPut(Taken(bits, i, count - 1), i + count - 1, true);
    }
  }

  // ---- the allocator ---------------------------------------------------------------------------

  class Pmm {
    const pages: nat
    const bitmap: array<bool>
    const refcounts: array<nat>
    var used: int
    var hint: nat
    /** How many holders each frame has. */
    ghost var refs: seq<nat>

    /** The counts are the holders, and a held frame is used. */
    ghost predicate RefsOk()
      reads this`refs, bitmap, refcounts
    {
      && bitmap.Length == pages && refcounts.Length == pages && |refs| == pages
      && (forall i :: 0 <= i < pages ==> refcounts[i] == refs[i] < REF_LIMIT)
      && (forall i :: 0 <= i < pages && refs[i] > 0 ==> bitmap[i])
    }

    ghost predicate Valid()
      reads this, bitmap, refcounts
    {
      RefsOk() && used == UsedCount(bitmap[..]) && UsedBelow(bitmap[..], hint)
    }

    /** Everything starts out used and unheld. */
    constructor (pages: nat)
      ensures Valid() && this.pages == pages && forall i :: 0 <= i < pages ==> bitmap[i] && refs[i] == 0
      ensures fresh(bitmap) && fresh(refcounts)
    {
      this.pages := pages;
      bitmap := new bool[pages](_ => true);
      refcounts := new nat[pages](_ => 0);
      used, hint := pages, pages;
      refs := seq(pages, _ => 0);
      new;
      AllUsed(bitmap[..]);
    }

    /** Set or clear one frame's bit and count. */
    method Put(i: nat, b: bool, r: nat)
      requires RefsOk() && i < pages && r < REF_LIMIT && (r > 0 ==> b)
      modifies this`refs, bitmap, refcounts
      ensures RefsOk() && bitmap[..] == old(bitmap[..])[i := b] && refs == old(refs)[i := r]
    {
      bitmap[i] := b;
      refcounts[i] := r;
      refs := refs[i := r];
    }

    /** mark_range: rounding outwards to claim and inwards to release, so that no byte outside the
        range is released and none inside is left unclaimed. */
    method MarkRange(base: nat, len: nat, claim: bool)
      requires Valid()
      modifies this`used, this`hint, this`refs, bitmap, refcounts
      ensures Valid()
      ensures forall i :: 0 <= i < pages ==> bitmap[i] == if claim then old(bitmap[i]) || Overlaps(i, base, len)
                                                          else old(bitmap[i]) && !Inside(i, base, len)
      ensures forall i :: 0 <= i < pages ==> refs[i] == if claim && Overlaps(i, base, len) && old(!bitmap[i]) then 1
                                                        else if !claim && Inside(i, base, len) && old(bitmap[i]) then 0
                                                        else old(refs[i])
    {
      var first := if claim then base / PAGE else (base + PAGE - 1) / PAGE;
      var end := if claim then (base + len + PAGE - 1) / PAGE else (base + len) / PAGE;
      if end > pages { end := pages; }
      var i := first;
      while i < end
        invariant first <= i && (i <= end || i == first) && Valid()
        invariant forall k :: 0 <= k < pages && !(first <= k < i) ==>
                    bitmap[k] == old(bitmap[k]) && refs[k] == old(refs[k])
        invariant forall k :: first <= k < i && k < pages ==> bitmap[k] == claim
        invariant forall k :: first <= k < i && k < pages ==>
                    refs[k] == if old(bitmap[k]) == claim then old(refs[k]) else if claim then 1 else 0
      {
        MarkOne(i, claim);
        i := i + 1;
      }
      forall k | 0 <= k < pages
        ensures first <= k < end <==> if claim then Overlaps(k, base, len) else Inside(k, base, len)
      {
        Rounding(k, base, len);
      }
    }

    method MarkOne(i: nat, claim: bool)
      requires Valid() && i < pages
      modifies this`used, this`hint, this`refs, bitmap, refcounts
      ensures Valid() && bitmap[..] == old(bitmap[..])[i := claim]
      ensures refs == if old(bitmap[i]) == claim then old(refs) else old(refs)[i := if claim then 1 else 0]
    {
      if bitmap[i] != claim {
        UsedPut(bitmap[..], i, claim);
        Put(i, claim, if claim then 1 else 0);
        used := used + if claim then 1 else -1;
        if !claim && i < hint { hint := i; }
      }
      assert bitmap[..] == old(bitmap[..])[i := claim];
    }

    // ---- allocating ------------------------------------------------------------------------------

    /** The lowest run of `count` free frames below `limit`, skipping past each used frame found; 0 if
        there is none. Its frames had no holder and now have one each. */
    method AllocBelow(count: nat, limit: nat) returns (phys: nat)
      requires Valid()
      modifies this`used, this`hint, this`refs, bitmap, refcounts
      ensures Valid()
      ensures count == 0 || NoFit(old(bitmap[..]), count, Max(limit)) ==>
                phys == 0 && bitmap[..] == old(bitmap[..]) && refs == old(refs)
      ensures count > 0 && !NoFit(old(bitmap[..]), count, Max(limit)) ==>
                Took(old(bitmap[..]), old(refs), phys, count, Max(limit), bitmap[..], refs)
      ensures old(pages > 0 && bitmap[0]) ==> (phys == 0 <==> count == 0 || NoFit(old(bitmap[..]), count, Max(limit)))
    {
      if count == 0 { return 0; }
      var max := Max(limit);
      ghost var bits := bitmap[..];
      var i := hint;
      NoRunBelowHint(bits, hint, count);
      while i + count <= max
        invariant Valid() && hint == old(hint) <= i && bitmap[..] == bits && refs == old(refs)
        invariant NoRunBelow(bits, i, count)
        decreases max - i
      {
        if bitmap[i] {
          NoRunPast(bits, i, i, count);
          i := i + 1;
          continue;
        }
        var run := RunLength(i, count);
        if run < count {
          NoRunPast(bits, i, i + run, count);
          i := i + run + 1;
          continue;
        }
        Claim(i, count);
        phys := i * PAGE;
        FoundRun(bits, i, count, max);
        return;
      }
      NothingFits(bits, i, count, max);
      return 0;
    }

    function Max(limit: nat): nat { if limit / PAGE > pages then pages else limit / PAGE }

    /** Frames up to `n` are below it exactly if they are all there and end by `limit`. */
    lemma MaxMeans(limit: nat, n: nat)
      ensures n <= Max(limit) <==> n <= pages && n * 4096 <= limit
    {
    }

    /** How many frames from `i` on are free, at most `count`. */
    method RunLength(i: nat, count: nat) returns (run: nat)
      requires bitmap.Length == pages && i + count <= pages && count > 0 && !bitmap[i]
      ensures 0 < run <= count && FreeRun(bitmap[..], i, run) && (run < count ==> bitmap[i + run])
    {
      run := 1;
      while run < count && !bitmap[i + run]
        invariant 0 < run <= count && FreeRun(bitmap[..], i, run)
      {
        run := run + 1;
      }
    }

    /** Take a free run, all frames before which are known used if it starts at the hint or if every
        frame is a run. */
    method Claim(i: nat, count: nat)
      requires Valid() && count > 0 && hint <= i && FreeRun(bitmap[..], i, count) && NoRunBelow(bitmap[..], i, count)
      modifies this`used, this`hint, this`refs, bitmap, refcounts
      ensures Valid() && bitmap[..] == Taken(old(bitmap[..]), i, count)
      ensures forall k :: 0 <= k < pages ==> refs[k] == if i <= k < i + count then 1 else old(refs)[k]
    {
      ghost var bits := bitmap[..];
      for k := 0 to count
        invariant RefsOk() && bitmap[..] == Taken(bits, i, k) && used == old(used) && hint == old(hint)
        invariant forall j :: 0 <= j < pages ==> refs[j] == if i <= j < i + k then 1 else old(refs)[j]
      {
        Put(i + k, true, 1);
      }
      TakenCount(bits, i, count);
      used := used + count;
      TakenBelow(bits, i, count, hint);
      if count == 1 || i == hint {
        hint := i + count;
      }
    }

    // ---- releasing -------------------------------------------------------------------------------

    /** Drop one holder of a used frame; the last one, or none, frees it. A frame that is free or not
        there is left alone. */
    method FreeOne(i: nat)
      requires RefsOk() && used == UsedCount(bitmap[..])
      modifies this`used, this`refs, bitmap, refcounts
      ensures RefsOk() && used == UsedCount(bitmap[..])
      ensures i >= pages ==> bitmap[..] == old(bitmap[..]) && refs == old(refs)
      ensures i < pages ==> bitmap[..] == old(bitmap[..])[i := old(bitmap[i]) && old(refs[i]) > 1]
      ensures i < pages ==> refs == old(refs)[i := if old(refs[i]) > 0 then old(refs[i]) - 1 else 0]
    {
      if i >= pages { return; }
      if !bitmap[i] {
        assert refs[i] == 0 && refs == refs[i := 0] && bitmap[..] == bitmap[..][i := false];
        return;
      }
      if refcounts[i] > 1 {
        Put(i, true, refcounts[i] - 1);
        assert bitmap[..] == old(bitmap[..]);
        return;
      }
      UsedPut(bitmap[..], i, false);
      Put(i, false, 0);
      used := used - 1;
    }

    method FreePages(phys: nat, count: nat)
      requires Valid()
      modifies this`used, this`hint, this`refs, bitmap, refcounts
      ensures Valid()
      ensures forall j :: 0 <= j < pages ==>
                bitmap[j] == (old(bitmap[j]) && (InRun(j, phys, count) ==> old(refs[j]) > 1))
      ensures forall j :: 0 <= j < pages ==>
                refs[j] == if InRun(j, phys, count) && old(refs[j]) > 0 then old(refs[j]) - 1 else old(refs[j])
    {
      var i := phys / PAGE;
      for k := 0 to count
        invariant RefsOk() && used == UsedCount(bitmap[..]) && hint == old(hint)
        invariant forall j :: 0 <= j < pages ==> bitmap[j] == (old(bitmap[j]) && (i <= j < i + k ==> old(refs[j]) > 1))
        invariant forall j :: 0 <= j < pages ==>
                    refs[j] == if i <= j < i + k && old(refs[j]) > 0 then old(refs[j]) - 1 else old(refs[j])
      {
        FreeOne(i + k);
      }
      if i < hint { hint := i; }
    }

    /** One more holder. The books stay right exactly if the frame is in use and its count does not
        wrap. */
    method IncRef(phys: nat)
      requires Valid()
      modifies this`refs, refcounts
      ensures refs == if phys / PAGE < pages then old(refs)[phys / PAGE := old(refs[phys / PAGE]) + 1] else old(refs)
      ensures Valid() <==> (phys / PAGE < pages ==> bitmap[phys / PAGE] && old(refs[phys / PAGE]) + 1 < REF_LIMIT)
    {
      var i := phys / PAGE;
      if i < pages {
        refcounts[i] := (refcounts[i] + 1) % REF_LIMIT;
        refs := refs[i := refs[i] + 1];
        assert refs[i] > 0;
      }
    }

    /** One holder less; the frame is freed with the last. The books stay right exactly if the frame was
        in use. */
    method DecRef(phys: nat) returns (rem: nat)
      requires Valid()
      modifies this`used, this`hint, this`refs, bitmap, refcounts
      ensures phys / PAGE < pages ==>
                && rem == (if old(refs[phys / PAGE]) > 0 then old(refs[phys / PAGE]) - 1 else 0)
                && refs == old(refs)[phys / PAGE := rem]
      ensures phys / PAGE >= pages ==> refs == old(refs) && rem == 0
      ensures Valid() <==> (phys / PAGE < pages ==> old(bitmap[phys / PAGE]))
      ensures phys / PAGE < pages ==> bitmap[..] == old(bitmap[..])[phys / PAGE := old(refs[phys / PAGE]) > 1]
    {
      var i := phys / PAGE;
      rem := 0;
      if i < pages {
        UsedPut(bitmap[..], i, false);
        if refcounts[i] > 1 {
          rem := refcounts[i] - 1;
          Put(i, true, rem);
          assert bitmap[..] == old(bitmap[..]);
        } else {
          Put(i, false, 0);
          used := used - 1;
          if i < hint { hint := i; }
        }
      }
    }
  }

  predicate InRun(i: nat, phys: nat, count: nat) { phys / PAGE <= i < phys / PAGE + count }

  /** No run of `count` free frames ends by `max`. */
  ghost predicate NoFit(bits: seq<bool>, count: nat, max: nat) {
    forall i: nat :: i + count <= max ==> !FreeRun(bits, i, count)
  }

  /** The lowest free run was taken: its frames had no holder, and now one each. */
  ghost predicate Took(bits: seq<bool>, refs: seq<nat>, phys: nat, count: nat, max: nat, bits': seq<bool>,
                       refs': seq<nat>) {
    && phys % PAGE == 0 && phys / PAGE + count <= max <= |bits| && |refs| == |refs'| == |bits|
    && FreeRun(bits, phys / PAGE, count) && NoRunBelow(bits, phys / PAGE, count)
    && bits' == Taken(bits, phys / PAGE, count)
    && (forall k :: 0 <= k < |bits| && InRun(k, phys, count) ==> refs[k] == 0 && refs'[k] == 1)
    && (forall k :: 0 <= k < |bits| && !InRun(k, phys, count) ==> refs'[k] == refs[k])
  }

  /** Taking a holder of a free frame, whichever it is, breaks the books. */
  method HoldFree(pages: nat, i: nat) returns (m: Pmm)
    requires i < pages
    ensures fresh(m) && !m.Valid()
  {
    m := new Pmm(pages);
    m.MarkRange(i * PAGE, PAGE, false);
    m.IncRef(i * PAGE);
  }

  /** So does dropping a holder of a free frame. */
  method DropFree(pages: nat, i: nat) returns (m: Pmm)
    requires i < pages
    ensures fresh(m) && !m.Valid()
  {
    m := new Pmm(pages);
    m.MarkRange(i * PAGE, PAGE, false);
    var _ := m.DecRef(i * PAGE);
  }

  /** And so does the 65536th holder of a frame. */
  method HoldTooOften(pages: nat, i: nat) returns (m: Pmm)
    requires i < pages
    ensures fresh(m) && !m.Valid()
  {
    m := new Pmm(pages);
    for n := 0 to REF_LIMIT - 1
      invariant m.Valid() && fresh(m) && fresh(m.bitmap) && fresh(m.refcounts) && m.pages == pages
      invariant m.bitmap[i] && m.refs[i] == n
    {
      m.IncRef(i * PAGE);
    }
    m.IncRef(i * PAGE);
  }

  lemma FoundRun(bits: seq<bool>, i: nat, count: nat, max: nat)
    requires FreeRun(bits, i, count) && i + count <= max && count > 0
    ensures !NoFit(bits, count, max) && i * PAGE / PAGE == i && i * PAGE % PAGE == 0
    ensures |bits| > 0 && bits[0] ==> i > 0
  {
    assert !bits[i];
  }

  lemma NothingFits(bits: seq<bool>, i: nat, count: nat, max: nat)
    requires NoRunBelow(bits, i, count) && i + count > max
    ensures NoFit(bits, count, max)
  {
  }

  /** Where the hint may move to after taking a run. */
  lemma TakenBelow(bits: seq<bool>, i: nat, count: nat, hint: nat)
    requires FreeRun(bits, i, count) && NoRunBelow(bits, i, count) && UsedBelow(bits, hint) && hint <= i && count > 0
    ensures UsedBelow(Taken(bits, i, count), hint)
    ensures count == 1 || i == hint ==> UsedBelow(Taken(bits, i, count), i + count)
  {
    forall k: nat | k < |bits| ensures Taken(bits, i, count)[k] == (bits[k] || i <= k < i + count) {
      TakenAt(bits, i, count, k);
    }
    if count == 1 {
      forall k: nat | k < i ensures bits[k] { assert !FreeRun(bits, k, count); }
    }
  }

  lemma {:induction false} AllUsed(bits: seq<bool>)
    requires forall i :: 0 <= i < |bits| ==> bits[i]
    ensures UsedCount(bits) == |bits|
  {
    if bits != [] { AllUsed(bits[..|bits| - 1]); }
  }

  /** Frame `i` shares a byte with the range (an empty range that starts inside a frame counts). */
  predicate Overlaps(i: nat, base: nat, len: nat) { i * PAGE < base + len && base < (i + 1) * PAGE }

  predicate Inside(i: nat, base: nat, len: nat) { base <= i * PAGE && (i + 1) * PAGE <= base + len }

  lemma Rounding(i: nat, base: nat, len: nat)
    ensures base / PAGE <= i < (base + len + PAGE - 1) / PAGE <==> Overlaps(i, base, len)
    ensures (base + PAGE - 1) / PAGE <= i < (base + len) / PAGE <==> Inside(i, base, len)
  {
  }
}
