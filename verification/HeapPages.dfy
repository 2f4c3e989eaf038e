/** The page layer of the kernel heap: best-fit runs of free address space, joined with their
    neighbours when freed, under a bump pointer that retracts. */
module HeapPages {

  const MAX_FREE_RUNS: nat := 4096

  datatype Run = Run(page: nat, count: nat) {
    function End(): nat { page + count }
    predicate Has(p: nat) { page <= p < page + count }
  }

  ghost function PagesOf(page: nat, count: nat): set<nat> {
    if count == 0 then {} else PagesOf(page, count - 1) + {page + count - 1}
  }

  lemma {:induction false} PagesHas(page: nat, count: nat)
    ensures forall p: nat :: p in PagesOf(page, count) <==> page <= p < page + count
  {
    if count > 0 { PagesHas(page, count - 1); }
  }

  lemma {:induction false} PagesSize(page: nat, count: nat)
    ensures |PagesOf(page, count)| == count
  {
    if count > 0 {
      PagesSize(page, count - 1);
      PagesHas(page, count - 1);
    }
  }

  /** Some free run contains page `p`. */
  ghost predicate InRuns(rs: seq<Run>, p: nat) { exists i :: 0 <= i < |rs| && rs[i].Has(p) }

  /** Neither overlapping nor adjacent. */
  predicate Apart(r: Run, s: Run) { r.End() < s.page || s.End() < r.page }

  predicate RunsApart(rs: seq<Run>) {
    && (forall i :: 0 <= i < |rs| ==> rs[i].count > 0)
    && (forall i, j :: 0 <= i < j < |rs| ==> Apart(rs[i], rs[j]))
  }

  /** No run reaches past `bump`. */
  predicate RunsWithin(rs: seq<Run>, bump: nat) { forall i :: 0 <= i < |rs| ==> rs[i].End() <= bump }

  /** No run ends at `bump`. */
  predicate NoneAtTop(rs: seq<Run>, bump: nat) { forall i :: 0 <= i < |rs| ==> rs[i].End() != bump }

  /** Every page below `bump` is exactly one of live, free or lost. */
  ghost predicate Split(rs: seq<Run>, bump: nat, live: set<nat>, lost: set<nat>) {
    && RunsApart(rs) && RunsWithin(rs, bump) && live !! lost
    && (forall p: nat :: p < bump <==> p in live || p in lost || InRuns(rs, p))
    && (forall p: nat :: InRuns(rs, p) ==> p !in live && p !in lost)
  }

  function DropAt(rs: seq<Run>, i: nat): (r: seq<Run>)
    requires i < |rs|
    ensures |r| == |rs| - 1
  {
    rs[i := rs[|rs| - 1]][..|rs| - 1]
  }

  lemma DropAtApart(rs: seq<Run>, i: nat)
    requires i < |rs| && RunsApart(rs)
    ensures RunsApart(DropAt(rs, i))
    ensures forall r :: r in DropAt(rs, i) ==> r in rs && r != rs[i]
  {
    var u := DropAt(rs, i);
    forall j, k | 0 <= j < k < |u| ensures Apart(u[j], u[k]) {
      assert u[j] == rs[if j == i then |rs| - 1 else j];
      assert u[k] == rs[if k == i then |rs| - 1 else k];
    }
    forall j | 0 <= j < |u| ensures u[j] in rs && u[j] != rs[i] {
      var k := if j == i then |rs| - 1 else j;
      assert u[j] == rs[k] && k != i;
      assert Apart(rs[if k < i then k else i], rs[if k < i then i else k]);
    }
  }

  /** Removing run `i` removes exactly its pages. */
  lemma DropAtPages(rs: seq<Run>, i: nat, p: nat)
    requires i < |rs| && RunsApart(rs)
    ensures InRuns(DropAt(rs, i), p) <==> InRuns(rs, p) && !rs[i].Has(p)
  {
    var u := DropAt(rs, i);
    if InRuns(u, p) {
      var j :| 0 <= j < |u| && u[j].Has(p);
      var k := if j == i then |rs| - 1 else j;
      assert rs[k] == u[j] && k != i;
      assert Apart(rs[if k < i then k else i], rs[if k < i then i else k]);
    }
    if InRuns(rs, p) && !rs[i].Has(p) {
      var k :| 0 <= k < |rs| && rs[k].Has(p);
      assert u[if k == |rs| - 1 then i else k].Has(p);
    }
  }

  // ---- how each step moves pages between live, free and lost -------------------------------

  /** A whole run is handed out (or held aside while it is joined). */
  lemma TakeRun(rs: seq<Run>, k: nat, bump: nat, live: set<nat>, lost: set<nat>)
    requires Split(rs, bump, live, lost) && k < |rs|
    ensures Split(DropAt(rs, k), bump, live + PagesOf(rs[k].page, rs[k].count), lost)
    ensures PagesOf(rs[k].page, rs[k].count) !! live + lost
  {
    PagesHas(rs[k].page, rs[k].count);
    DropAtApart(rs, k);
    forall p: nat
      ensures InRuns(DropAt(rs, k), p) <==> InRuns(rs, p) && !rs[k].Has(p)
      ensures rs[k].Has(p) ==> InRuns(rs, p)
    {
      DropAtPages(rs, k, p);
    }
    var u := DropAt(rs, k);
    forall i | 0 <= i < |u| ensures u[i].End() <= bump { assert u[i] in u; }
  }

  /** The front of a run is handed out. */
  lemma TakeFront(rs: seq<Run>, k: nat, count: nat, bump: nat, live: set<nat>, lost: set<nat>)
    requires Split(rs, bump, live, lost) && k < |rs| && 0 < count < rs[k].count
    ensures var u := rs[k := Run(rs[k].page + count, rs[k].count - count)];
            Split(u, bump, live + PagesOf(rs[k].page, count), lost)
    ensures PagesOf(rs[k].page, count) !! live + lost
  {
    PagesHas(rs[k].page, count);
    var u := rs[k := Run(rs[k].page + count, rs[k].count - count)];
    forall i, j | 0 <= i < j < |u| ensures Apart(u[i], u[j]) { assert Apart(rs[i], rs[j]); }
    forall p: nat
      ensures InRuns(u, p) <==> InRuns(rs, p) && p !in PagesOf(rs[k].page, count)
      ensures p in PagesOf(rs[k].page, count) ==> InRuns(rs, p)
    {
      CutPages(rs, k, count, p);
    }
  }

  lemma CutPages(rs: seq<Run>, k: nat, count: nat, p: nat)
    requires k < |rs| && count < rs[k].count && RunsApart(rs)
    ensures var u := rs[k := Run(rs[k].page + count, rs[k].count - count)];
            InRuns(u, p) <==> InRuns(rs, p) && !Run(rs[k].page, count).Has(p)
    ensures Run(rs[k].page, count).Has(p) ==> InRuns(rs, p)
  {
    var u := rs[k := Run(rs[k].page + count, rs[k].count - count)];
    if InRuns(u, p) {
      var i :| 0 <= i < |u| && u[i].Has(p);
      assert rs[i].Has(p);
      if i != k { assert Apart(rs[if i < k then i else k], rs[if i < k then k else i]); }
    }
    if InRuns(rs, p) && !Run(rs[k].page, count).Has(p) {
      var i :| 0 <= i < |rs| && rs[i].Has(p);
      assert u[i].Has(p);
    }
    if Run(rs[k].page, count).Has(p) { assert rs[k].Has(p); }
  }

  lemma TakeFresh(rs: seq<Run>, count: nat, bump: nat, live: set<nat>, lost: set<nat>)
    requires Split(rs, bump, live, lost)
    ensures Split(rs, bump + count, live + PagesOf(bump, count), lost)
    ensures PagesOf(bump, count) !! live + lost
  {
    PagesHas(bump, count);
  }

  /** A live run that touches no free run becomes a free run. */
  lemma AddRun(rs: seq<Run>, r: Run, bump: nat, live: set<nat>, lost: set<nat>)
    requires Split(rs, bump, live, lost) && r.count > 0 && PagesOf(r.page, r.count) <= live
    requires forall i :: 0 <= i < |rs| ==> Apart(rs[i], r)
    ensures Split(rs + [r], bump, live - PagesOf(r.page, r.count), lost)
  {
    PagesHas(r.page, r.count);
    var u := rs + [r];
    forall p: nat
      ensures InRuns(u, p) <==> InRuns(rs, p) || r.Has(p)
    {
      if InRuns(rs, p) { var i :| 0 <= i < |rs| && rs[i].Has(p); assert u[i].Has(p); }
      if r.Has(p) { assert u[|rs|].Has(p); }
    }
    assert r.page + r.count - 1 in live;
  }

  /** The topmost live run is given back to the bump pointer. */
  lemma Retract(rs: seq<Run>, r: Run, bump: nat, live: set<nat>, lost: set<nat>)
    requires Split(rs, bump, live, lost) && r.End() == bump && PagesOf(r.page, r.count) <= live
    ensures Split(rs, r.page, live - PagesOf(r.page, r.count), lost)
  {
    PagesHas(r.page, r.count);
    var live' := live - PagesOf(r.page, r.count);
    forall i | 0 <= i < |rs| ensures rs[i].End() <= r.page { LastPage(rs, i); }
    forall p: nat ensures p < r.page <==> p in live' || p in lost || InRuns(rs, p) {
      if InRuns(rs, p) { var i :| 0 <= i < |rs| && rs[i].Has(p); }
      assert p in lost ==> p !in PagesOf(r.page, r.count);
    }
  }

  lemma LastPage(rs: seq<Run>, i: nat)
    requires i < |rs| && rs[i].count > 0
    ensures InRuns(rs, rs[i].End() - 1) && InRuns(rs, rs[i].page)
  {
    assert rs[i].Has(rs[i].End() - 1) && rs[i].Has(rs[i].page);
  }

  /** A live run is forgotten. */
  lemma Lose(rs: seq<Run>, r: Run, bump: nat, live: set<nat>, lost: set<nat>)
    requires Split(rs, bump, live, lost) && PagesOf(r.page, r.count) <= live
    ensures Split(rs, bump, live - PagesOf(r.page, r.count), lost + PagesOf(r.page, r.count))
  {
  }

  /** With nothing live and nothing lost the allocator is back where it started. */
  lemma QuiescentIsInitial(rs: seq<Run>, bump: nat)
    requires Split(rs, bump, {}, {}) && NoneAtTop(rs, bump)
    ensures bump == 0 && rs == []
  {
    if bump > 0 { TopPage(rs, bump); }
    if rs != [] { LastPage(rs, 0); }
  }

  lemma TopPage(rs: seq<Run>, bump: nat)
    requires Split(rs, bump, {}, {}) && bump > 0
    ensures !NoneAtTop(rs, bump)
  {
    assert InRuns(rs, bump - 1);
    var i :| 0 <= i < |rs| && rs[i].Has(bump - 1);
    assert rs[i].End() == bump;
  }

  lemma DropAtTop(rs: seq<Run>, k: nat, bump: nat)
    requires k < |rs| && NoneAtTop(rs, bump)
    ensures NoneAtTop(DropAt(rs, k), bump)
  {
  }

  lemma CutTop(rs: seq<Run>, k: nat, count: nat, bump: nat)
    requires k < |rs| && count <= rs[k].count && NoneAtTop(rs, bump)
    ensures NoneAtTop(rs[k := Run(rs[k].page + count, rs[k].count - count)], bump)
  {
  }

  // ---- the allocator -------------------------------------------------------------------------

  class PageHeap {
    const limit: nat
    var bump: nat
    const runs: array<Run>
    var nruns: nat
    const owner: array<nat>
    var pagesMapped: nat
    /** Pages handed out, and pages whose address space a full table dropped. */
    ghost var live: set<nat>
    ghost var lost: set<nat>

    ghost function Free(): seq<Run>
      requires nruns <= runs.Length
      reads this`nruns, runs
    {
      runs[..nruns]
    }

    ghost predicate Partitioned()
      reads this`bump, this`nruns, this`live, this`lost, runs
    {
      && runs.Length == MAX_FREE_RUNS && nruns <= MAX_FREE_RUNS && bump <= limit
      && Split(Free(), bump, live, lost) && NoneAtTop(Free(), bump)
    }

    /** A page has an owner exactly while it is live. */
    ghost predicate Mapped()
      reads this`live, this`pagesMapped, owner
    {
      owner.Length == limit && OwnerOk(owner[..], pagesMapped, live, 0, 0)
    }

    ghost predicate Valid()
      reads this, runs, owner
    {
      Partitioned() && Mapped()
    }

    constructor (limit: nat)
      ensures Valid() && this.limit == limit && bump == 0 && nruns == 0 && live == {} && lost == {}
      ensures fresh(runs) && fresh(owner)
    {
      this.limit := limit;
      bump, nruns, pagesMapped := 0, 0, 0;
      runs := new Run[MAX_FREE_RUNS](_ => Run(0, 0));
      owner := new nat[limit](_ => 0);
      live, lost := {}, {};
    }

    // ---- taking address space ----------------------------------------------------------------

    /** The smallest run that fits, or `nruns`. */
    method BestFit(count: nat) returns (best: nat)
      requires nruns <= runs.Length
      ensures best <= nruns
      ensures best < nruns ==> runs[best].count >= count
      ensures best < nruns ==>
                forall i :: 0 <= i < nruns && runs[i].count >= count ==> runs[best].count <= runs[i].count
      ensures best == nruns ==> forall i :: 0 <= i < nruns ==> runs[i].count < count
    {
      best := nruns;
      for i := 0 to nruns
        invariant best == nruns ==> forall k :: 0 <= k < i ==> runs[k].count < count
        invariant best != nruns ==> best < i && runs[best].count >= count
        invariant best != nruns ==>
                    forall k :: 0 <= k < i && runs[k].count >= count ==> runs[best].count <= runs[k].count
      {
        if runs[i].count >= count && (best == nruns || runs[i].count < runs[best].count) {
          best := i;
          if runs[i].count == count { return; }
        }
      }
    }

    /** No free run has `count` pages. */
    ghost predicate NoRunFits(count: nat)
      requires nruns <= runs.Length
      reads this`nruns, runs
    {
      forall i :: 0 <= i < nruns ==> runs[i].count < count
    }

    /** The tightest free run's front, else fresh pages at the bump pointer, else nothing. */
    method Take(count: nat) returns (page: int)
      requires Partitioned() && count > 0
      modifies this`bump, this`nruns, this`live, runs
      ensures Partitioned()
      ensures page < 0 <==> old(NoRunFits(count)) && old(bump) + count > limit
      ensures page < 0 ==> Free() == old(Free()) && live == old(live) && bump == old(bump)
      ensures page >= 0 ==> page + count <= limit && live == old(live) + PagesOf(page, count)
      ensures page >= 0 ==> PagesOf(page, count) !! old(live) + lost
      ensures !old(NoRunFits(count)) ==> bump == old(bump)
      ensures nruns <= old(nruns)
    {
      hide Split;
      var best := BestFit(count);
      if best < nruns {
        page := runs[best].page;
        TakeFrom(best, count);
      } else if bump + count > limit {
        page := -1;
      } else {
        page := bump;
        TakeFresh(Free(), count, bump, live, lost);
        FreshTop(count);
        bump := bump + count;
        live := live + PagesOf(page, count);
      }
    }

    lemma FreshTop(count: nat)
      requires Partitioned() && count > 0
      ensures NoneAtTop(Free(), bump + count)
    {
    }

    /** Cut `count` pages off the front of run `k`, dropping it when nothing is left. */
    method TakeFrom(k: nat, count: nat)
      requires Partitioned() && k < nruns && 0 < count <= runs[k].count
      modifies this`nruns, this`live, runs
      ensures Partitioned()
      ensures live == old(live) + PagesOf(old(runs[k].page), count)
      ensures PagesOf(old(runs[k].page), count) !! old(live) + lost
      ensures old(runs[k].page) + count <= limit && nruns <= old(nruns)
    {
      hide Split, NoneAtTop, PagesOf;
      ghost var rs := Free();
      RunInside(k);
      var r := runs[k];
      if r.count == count {
        TakeRun(rs, k, bump, live, lost);
        DropAtTop(rs, k, bump);
        Unlink(k);
      } else {
        TakeFront(rs, k, count, bump, live, lost);
        CutTop(rs, k, count, bump);
        SetRun(k, Run(r.page + count, r.count - count));
      }
      ghost var u := Free();
      live := live + PagesOf(r.page, count);
      assert Free() == u;
    }

    method SetRun(k: nat, r: Run)
      requires k < nruns <= runs.Length
      modifies runs
      ensures Free() == old(Free())[k := r]
    {
      runs[k] := r;
    }

    /** The last run takes the place of run `k`. */
    method Unlink(k: nat)
      requires k < nruns <= runs.Length
      modifies this`nruns, runs
      ensures nruns == old(nruns) - 1 && Free() == DropAt(old(Free()), k)
    {
      runs[k] := runs[nruns - 1];
      nruns := nruns - 1;
    }

    lemma RunInside(k: nat)
      requires Partitioned() && k < nruns
      ensures runs[k].End() <= bump
    {
      assert Free()[k] == runs[k];
    }

    // ---- giving address space back ----------------------------------------------------------

    /** Take free run `i`, adjacent to the live run `r`, out of the table and into `r`. */
    method JoinOne(i: nat, r: Run) returns (j: Run)
      requires i < nruns <= runs.Length && Split(Free(), bump, live, lost)
      requires r.count > 0 && PagesOf(r.page, r.count) <= live && Touching(runs[i], r)
      modifies this`nruns, this`live, runs
      ensures nruns == old(nruns) - 1 && Split(Free(), bump, live, lost)
      ensures j.count > 0 && PagesOf(j.page, j.count) <= live
      ensures PagesOf(r.page, r.count) <= PagesOf(j.page, j.count)
      ensures live - PagesOf(j.page, j.count) == old(live) - PagesOf(r.page, r.count)
      ensures forall x :: x in Free() ==> x in old(Free())
    {
      hide Split, PagesOf;
      ghost var rs := Free();
      var f := runs[i];
      assert f == rs[i];
      DropAtApartOf(rs, i, bump, live, lost);
      TakeRun(rs, i, bump, live, lost);
      JoinPages(rs, i, r);
      j := JoinRuns(f, r);
      live := live + PagesOf(f.page, f.count);
      Unlink(i);
    }

    /** Absorb every free run adjacent to the run being freed; its pages are held as live
        meanwhile. Every join starts the scan over. */
    method Join(r0: Run) returns (r: Run)
      requires nruns <= runs.Length && Split(Free(), bump, live, lost)
      requires r0.count > 0 && PagesOf(r0.page, r0.count) <= live
      modifies this`nruns, this`live, runs
      ensures nruns <= old(nruns) && Split(Free(), bump, live, lost)
      ensures r.count > 0 && PagesOf(r.page, r.count) <= live
      ensures live - PagesOf(r.page, r.count) == old(live) - PagesOf(r0.page, r0.count)
      ensures forall i :: 0 <= i < nruns ==> Apart(Free()[i], r)
      ensures nruns == old(nruns) ==> r == r0 && Free() == old(Free())
      ensures nruns < old(nruns) ==> AnyTouching(old(Free()), r0)
      ensures forall x :: x in Free() ==> x in old(Free())
    {
      hide Split, PagesOf, AnyTouching;
      r := r0;
      var i := 0;
      while i < nruns
        invariant i <= nruns <= old(nruns) && Split(Free(), bump, live, lost)
        invariant r.count > 0 && PagesOf(r.page, r.count) <= live
        invariant live - PagesOf(r.page, r.count) == old(live) - PagesOf(r0.page, r0.count)
        invariant forall k :: 0 <= k < i ==> !Touching(Free()[k], r)
        invariant nruns == old(nruns) ==> r == r0 && Free() == old(Free())
        invariant nruns < old(nruns) ==> AnyTouching(old(Free()), r0)
        invariant forall x :: x in Free() ==> x in old(Free())
        decreases nruns, nruns - i
      {
        var f := runs[i];
        assert f == Free()[i];
        if f.End() == r.page || r.End() == f.page {
          if nruns == old(nruns) { FoundTouching(old(Free()), i, r0); }
          r := JoinOne(i, r);
          i := 0;
        } else {
          i := i + 1;
        }
      }
      NotTouchingIsApart(Free(), r, bump, live, lost);
    }

    /** Pull the bump pointer down past every run that ends at it. */
    method Shrink()
      requires runs.Length == MAX_FREE_RUNS && nruns <= MAX_FREE_RUNS && bump <= limit
      requires Split(Free(), bump, live, lost)
      modifies this`bump, this`nruns, runs
      ensures Partitioned() && bump <= old(bump) && nruns <= old(nruns)
    {
      hide Split;
      var shrunk := true;
      while shrunk
        invariant nruns <= old(nruns) && bump <= old(bump) && Split(Free(), bump, live, lost)
        invariant !shrunk ==> NoneAtTop(Free(), bump)
        decreases nruns, shrunk
      {
        shrunk := false;
        var i := 0;
        ghost var n0, b0 := nruns, bump;
        while i < nruns
          invariant i <= nruns == n0 && bump == b0 && Split(Free(), bump, live, lost)
          invariant forall k :: 0 <= k < i ==> Free()[k].End() != bump
        {
          if runs[i].End() == bump {
            TopRun(Free(), i, bump, live, lost);
            bump := runs[i].page;
            Unlink(i);
            shrunk := true;
            break;
          }
          i := i + 1;
        }
      }
    }

    /** The freed run stands alone and the table has no room for it. */
    ghost predicate WillBeLost(page: nat, count: nat)
      requires nruns <= runs.Length
      reads this`bump, this`nruns, runs
    {
      nruns == MAX_FREE_RUNS && page + count != bump && !AnyTouching(Free(), Run(page, count))
    }

    /** Free a live run: join its neighbours, then retract the bump pointer, or keep the run,
        or lose its address space if the table is full. */
    method Give(page: nat, count: nat)
      requires Partitioned() && count > 0 && PagesOf(page, count) <= live
      modifies this`bump, this`nruns, this`live, this`lost, runs
      ensures Partitioned() && live == old(live) - PagesOf(page, count)
      ensures lost == if old(WillBeLost(page, count)) then old(lost) + PagesOf(page, count) else old(lost)
      ensures nruns <= old(nruns) + 1
    {
      hide Split, NoneAtTop, PagesOf, AnyTouching;
      var r := Join(Run(page, count));
      ghost var pages := PagesOf(r.page, r.count);
      ghost var rs := Free();
      if nruns == old(nruns) { ApartNotTouching(rs, r); }
      assert old(WillBeLost(page, count)) ==> r.End() != bump && nruns == MAX_FREE_RUNS;
      if r.End() == bump {
        Retract(rs, r, bump, live, lost);
        RetractInside(r);
        live := live - pages;
        bump := r.page;
        assert Free() == rs;
        Shrink();
      } else {
        ShrunkTop(rs, old(Free()), r, bump);
        if nruns < MAX_FREE_RUNS {
          AddRun(rs, r, bump, live, lost);
          Append(r);
        } else {
          Lose(rs, r, bump, live, lost);
          lost := lost + pages;
        }
        ghost var u := Free();
        live := live - pages;
        assert Free() == u;
      }
    }

    lemma RetractInside(r: Run)
      requires r.End() == bump
      ensures r.page <= bump
    {
    }

    method Append(r: Run)
      requires nruns < runs.Length
      modifies this`nruns, runs
      ensures nruns == old(nruns) + 1 && Free() == old(Free()) + [r]
    {
      runs[nruns] := r;
      nruns := nruns + 1;
    }

    // ---- mapped pages --------------------------------------------------------------------------

    /** Owners are set for the live pages outside [from, to). */
    ghost predicate MappedBut(from: nat, to: nat)
      reads this`live, this`pagesMapped, owner
    {
      owner.Length == limit && OwnerOk(owner[..], pagesMapped, live, from, to)
    }

    /** Clear the owners of `count` pages that are about to stop being live. */
    method Unmap(first: nat, count: nat)
      requires first + count <= owner.Length && count <= pagesMapped
      modifies this`pagesMapped, owner
      ensures pagesMapped == old(pagesMapped) - count
      ensures owner[..] == Cleared(old(owner[..]), first, count)
    {
      for i := 0 to count
        invariant pagesMapped == old(pagesMapped) - i
        invariant owner[..] == Cleared(old(owner[..]), first, i)
      {
        owner[first + i] := 0;
        pagesMapped := pagesMapped - 1;
      }
    }

    /** Unmap `count` live pages and free their address space. */
    method FreePages(first: nat, count: nat)
      requires Valid() && PagesOf(first, count) <= live && first + count <= limit
      modifies this, runs, owner
      ensures Valid() && live == old(live) - PagesOf(first, count)
      ensures lost
              == if count > 0 && old(WillBeLost(first, count)) then old(lost) + PagesOf(first, count) else old(lost)
      ensures nruns <= old(nruns) + 1
      ensures owner[..] == Cleared(old(owner[..]), first, count)
    {
      hide Split, NoneAtTop, AnyTouching, OwnerOk, Cleared;
      ClearedNone(owner[..], first);
      if count == 0 { return; }
      OwnerUnmapped(owner[..], pagesMapped, live, first, count, 0, 0);
      Unmap(first, count);
      Give(first, count);
    }

    /** Take address space and map it page by page; `mappable` pages can be mapped before the
        frame allocator or the page tables fail. On failure everything is given back. */
    method Alloc(count: nat, mappable: nat) returns (page: int)
      requires Valid()
      modifies this, runs, owner
      ensures Valid()
      ensures page < 0 <==> count == 0 || mappable < count || old(NoRunFits(count) && bump + count > limit)
      ensures page >= 0 ==> page + count <= limit && live == old(live) + PagesOf(page, count)
      ensures page >= 0 ==> PagesOf(page, count) !! old(live) && lost == old(lost)
      ensures page >= 0 ==> owner[..] == Marked(old(owner[..]), page, count)
      ensures page < 0 ==> live == old(live) && old(lost) <= lost && owner[..] == old(owner[..])
      ensures page < 0 && old(nruns) < MAX_FREE_RUNS ==> lost == old(lost)
    {
      hide Split, NoneAtTop, PagesOf, NoRunFits, OwnerOk, Marked, Cleared, Free;
      if count == 0 { return -1; }
      page := Take(count);
      if page < 0 { return; }
      OwnerTaken(owner[..], pagesMapped, old(live), page, count);
      var i := MapPages(page, count, mappable);
      if i < count {
        UndoAlloc(page, count, i);
        UndoneLive(old(live), page, count);
        MarkedCleared(old(owner[..]), old(pagesMapped), old(live), page, count, i);
        page := -1;
      } else {
        OwnerDone(owner[..], pagesMapped, live, page + count);
      }
    }

    /** Map the pages of a fresh run until one fails. */
    method MapPages(page: nat, count: nat, mappable: nat) returns (i: nat)
      requires page + count <= limit && MappedBut(page, page + count)
      modifies this`pagesMapped, owner
      ensures i == Min(count, mappable) && MappedBut(page + i, page + count)
      ensures owner[..] == Marked(old(owner[..]), page, i)
    {
      hide PagesOf, OwnerOk, Marked;
      MarkedNone(owner[..], page);
      i := 0;
      while i < count && i < mappable
        invariant i <= count && i <= mappable && MappedBut(page + i, page + count)
        invariant owner[..] == Marked(old(owner[..]), page, i)
      {
        MapOne(page + i, page + count);
        MarkedStep(old(owner[..]), page, i);
        i := i + 1;
      }
    }

    method MapOne(p: nat, to: nat)
      requires MappedBut(p, to) && p < to <= limit
      modifies this`pagesMapped, owner
      ensures MappedBut(p + 1, to) && owner[..] == old(owner[..])[p := 1]
    {
      hide OwnerOk, PagesOf;
      OwnerMarked(owner[..], pagesMapped, live, p, to);
      owner[p] := 1;
      pagesMapped := pagesMapped + 1;
      assert owner[..] == old(owner[..])[p := 1];
    }

    /** Unmap and give back the first `i` pages of a live run ending at `to`; unless the table
        was full, the rest of the run then has a free neighbour. */
    method UndoMapped(page: nat, i: nat, to: nat)
      requires Partitioned() && 0 < i && page + i < to <= limit && PagesOf(page, to - page) <= live
      requires MappedBut(page + i, to)
      modifies this, runs, owner
      ensures Partitioned() && MappedBut(page + i, to)
      ensures live == old(live) - PagesOf(page, i) && old(lost) <= lost
      ensures old(nruns) < MAX_FREE_RUNS ==> lost == old(lost) && AnyTouching(Free(), Run(page + i, to - (page + i)))
      ensures owner[..] == Cleared(old(owner[..]), page, i)
    {
      hide Split, NoneAtTop, PagesOf, AnyTouching, OwnerOk, Cleared;
      SplitSubsets(page, to - page, i, live);
      LiveNotLost(Free(), bump, live, lost);
      OwnerUnmapped(owner[..], pagesMapped, live, page, i, page + i, to);
      Unmap(page, i);
      Give(page, i);
      if old(nruns) < MAX_FREE_RUNS {
        FreeNeighbour(Free(), bump, live, lost, page, to - page, i);
      }
    }

    /** Give back a run of which only the first `i` pages were mapped. */
    method UndoAlloc(page: nat, count: nat, i: nat)
      requires Partitioned() && i < count && page + count <= limit && PagesOf(page, count) <= live
      requires MappedBut(page + i, page + count)
      modifies this, runs, owner
      ensures Valid() && live == old(live) - PagesOf(page, count) && old(lost) <= lost
      ensures old(nruns) < MAX_FREE_RUNS ==> lost == old(lost)
      ensures owner[..] == Cleared(old(owner[..]), page, i)
    {
      hide Split, NoneAtTop, PagesOf, AnyTouching, OwnerOk, Cleared;
      SplitSubsets(page, count, i, live);
      ClearedNone(owner[..], page);
      if i > 0 { UndoMapped(page, i, page + count); }
      GiveUnmapped(page + i, count - i);
    }

    /** Give back live pages that were never mapped. */
    method GiveUnmapped(page: nat, count: nat)
      requires Partitioned() && count > 0 && page + count <= limit && MappedBut(page, page + count)
      modifies this`bump, this`nruns, this`live, this`lost, runs
      ensures Valid() && live == old(live) - PagesOf(page, count)
      ensures lost == if old(WillBeLost(page, count)) then old(lost) + PagesOf(page, count) else old(lost)
    {
      hide Split, NoneAtTop, PagesOf, AnyTouching, OwnerOk;
      OwnerGiven(owner[..], pagesMapped, live, page, count);
      Give(page, count);
    }
  }

  // ---- the owner table -----------------------------------------------------------------------

  /** A page has an owner exactly when it is live and outside [from, to). */
  ghost predicate HasOwner(o: seq<nat>, live: set<nat>, from: nat, to: nat) {
    forall p :: 0 <= p < |o| ==> (o[p] != 0 <==> p in live && !(from <= p < to))
  }

  /** The pages [from, to) are live but not mapped yet; `mapped` counts the others. */
  ghost predicate OwnerOk(o: seq<nat>, mapped: nat, live: set<nat>, from: nat, to: nat) {
    && from <= to && PagesOf(from, to - from) <= live
    && mapped == |live| - (to - from) && HasOwner(o, live, from, to)
  }

  function Min(a: nat, b: nat): nat { if a < b then a else b }

  function Cleared(o: seq<nat>, first: nat, count: nat): (r: seq<nat>)
    requires first + count <= |o|
    ensures |r| == |o|
  {
    if count == 0 then o else Cleared(o, first, count - 1)[first + count - 1 := 0]
  }

  function Marked(o: seq<nat>, first: nat, count: nat): (r: seq<nat>)
    requires first + count <= |o|
    ensures |r| == |o|
  {
    if count == 0 then o else Marked(o, first, count - 1)[first + count - 1 := 1]
  }

  lemma ClearedNone(o: seq<nat>, first: nat)
    requires first <= |o|
    ensures Cleared(o, first, 0) == o && PagesOf(first, 0) == {}
  {
  }

  lemma MarkedNone(o: seq<nat>, first: nat)
    requires first <= |o|
    ensures Marked(o, first, 0) == o
  {
  }

  lemma MarkedStep(o: seq<nat>, first: nat, i: nat)
    requires first + i < |o|
    ensures Marked(o, first, i + 1) == Marked(o, first, i)[first + i := 1]
  {
  }

  lemma ClearedAt(o: seq<nat>, first: nat, count: nat, p: nat)
    requires first + count <= |o| && p < |o|
    ensures Cleared(o, first, count)[p] == if first <= p < first + count then 0 else o[p]
  {
    if count > 0 { ClearedAt(o, first, count - 1, p); }
  }

  lemma MarkedAt(o: seq<nat>, first: nat, count: nat, p: nat)
    requires first + count <= |o| && p < |o|
    ensures Marked(o, first, count)[p] == if first <= p < first + count then 1 else o[p]
  {
    if count > 0 { MarkedAt(o, first, count - 1, p); }
  }

  lemma OwnerUnmapped(o: seq<nat>, mapped: nat, live: set<nat>, first: nat, count: nat, from: nat, to: nat)
    requires first + count <= |o| && OwnerOk(o, mapped, live, from, to)
    requires PagesOf(first, count) <= live && (from == to || first + count <= from)
    ensures count <= mapped
    ensures OwnerOk(Cleared(o, first, count), mapped - count, live - PagesOf(first, count), from, to)
  {
    hide PagesOf, Cleared, HasOwner;
    PagesSubset(first, count, live);
    PagesSubset(from, to - from, live);
    PagesDisjoint(first, count, from, to - from);
    PagesSubset(from, to - from, live - PagesOf(first, count));
    ClearedOwners(o, live, first, count, from, to);
  }

  lemma PagesDisjoint(first: nat, count: nat, from: nat, n: nat)
    requires n == 0 || first + count <= from
    ensures PagesOf(first, count) !! PagesOf(from, n)
  {
    PagesHas(first, count);
    PagesHas(from, n);
    hide PagesOf;
  }

  lemma ClearedOwners(o: seq<nat>, live: set<nat>, first: nat, count: nat, from: nat, to: nat)
    requires first + count <= |o| && HasOwner(o, live, from, to)
    ensures HasOwner(Cleared(o, first, count), live - PagesOf(first, count), from, to)
  {
    PagesHas(first, count);
    forall p | 0 <= p < |o|
      ensures Cleared(o, first, count)[p] != 0 <==> p in live - PagesOf(first, count) && !(from <= p < to)
    {
      ClearedAt(o, first, count, p);
    }
  }

  lemma OwnerMarked(o: seq<nat>, mapped: nat, live: set<nat>, p: nat, to: nat)
    requires p < to <= |o| && OwnerOk(o, mapped, live, p, to)
    ensures OwnerOk(o[p := 1], mapped + 1, live, p + 1, to)
  {
    PagesHas(p, to - p);
    PagesHas(p + 1, to - p - 1);
    hide PagesOf;
    assert p in live;
    var n := o[p := 1];
    forall q | 0 <= q < |n| ensures n[q] != 0 <==> q in live && !(p + 1 <= q < to) {
      assert o[q] != 0 <==> q in live && !(p <= q < to);
    }
  }

  lemma OwnerTaken(o: seq<nat>, mapped: nat, live: set<nat>, page: nat, count: nat)
    requires page + count <= |o| && OwnerOk(o, mapped, live, 0, 0) && PagesOf(page, count) !! live
    ensures OwnerOk(o, mapped, live + PagesOf(page, count), page, page + count)
  {
    TakenSize(live, page, count);
    PagesHas(page, count);
    hide PagesOf;
  }

  lemma OwnerDone(o: seq<nat>, mapped: nat, live: set<nat>, to: nat)
    requires OwnerOk(o, mapped, live, to, to)
    ensures OwnerOk(o, mapped, live, 0, 0)
  {
  }

  lemma OwnerGiven(o: seq<nat>, mapped: nat, live: set<nat>, page: nat, count: nat)
    requires OwnerOk(o, mapped, live, page, page + count)
    ensures PagesOf(page, count) <= live
    ensures OwnerOk(o, mapped, live - PagesOf(page, count), 0, 0)
  {
    PagesSubset(page, count, live);
    PagesHas(page, count);
  }

  /** Pages that had no owner have none again after being marked and cleared. */
  lemma MarkedCleared(o: seq<nat>, mapped: nat, live: set<nat>, page: nat, count: nat, i: nat)
    requires i <= count && page + count <= |o| && OwnerOk(o, mapped, live, 0, 0) && PagesOf(page, count) !! live
    ensures Cleared(Marked(o, page, i), page, i) == o
  {
    PagesHas(page, count);
    var m := Marked(o, page, i);
    forall p | 0 <= p < |o| ensures Cleared(m, page, i)[p] == o[p] {
      MarkedAt(o, page, i, p);
      ClearedAt(m, page, i, p);
    }
  }

  lemma PagesSubset(page: nat, count: nat, live: set<nat>)
    requires PagesOf(page, count) <= live
    ensures count <= |live| && |live - PagesOf(page, count)| == |live| - count
  {
    PagesSize(page, count);
    SubsetSize(PagesOf(page, count), live);
  }

  lemma LiveNotLost(rs: seq<Run>, bump: nat, live: set<nat>, lost: set<nat>)
    requires Split(rs, bump, live, lost)
    ensures live !! lost
  {
  }

  /** Once the first `i` pages of a live run are free, a free run ends where the rest begins. */
  lemma FreeNeighbour(rs: seq<Run>, bump: nat, live: set<nat>, lost: set<nat>, page: nat, count: nat, i: nat)
    requires Split(rs, bump, live, lost) && 0 < i < count && PagesOf(page + i, count - i) <= live
    requires PagesOf(page, i) !! live + lost
    ensures AnyTouching(rs, Run(page + i, count - i))
  {
    PagesHas(page, i);
    PagesHas(page + i, count - i);
    hide PagesOf;
    assert page + i in live && page + i - 1 in PagesOf(page, i);
    assert InRuns(rs, page + i - 1);
    var k :| 0 <= k < |rs| && rs[k].Has(page + i - 1);
    assert rs[k].Has(page + i) ==> InRuns(rs, page + i);
    assert rs[k].End() == page + i;
  }

  // ---- facts used by the allocator ---------------------------------------------------------

  predicate Touching(f: Run, r: Run) { f.End() == r.page || r.End() == f.page }

  /** A run that ends at the bump pointer goes back to it. */
  lemma TopRun(rs: seq<Run>, i: nat, bump: nat, live: set<nat>, lost: set<nat>)
    requires i < |rs| && rs[i].End() == bump && Split(rs, bump, live, lost)
    ensures Split(DropAt(rs, i), rs[i].page, live, lost)
  {
    hide Split;
    var pages := PagesOf(rs[i].page, rs[i].count);
    TakeRun(rs, i, bump, live, lost);
    Retract(DropAt(rs, i), rs[i], bump, live + pages, lost);
    assert live + pages - pages == live;
  }

  lemma DropAtApartOf(rs: seq<Run>, i: nat, bump: nat, live: set<nat>, lost: set<nat>)
    requires i < |rs| && Split(rs, bump, live, lost)
    ensures forall x :: x in DropAt(rs, i) ==> x in rs
  {
    DropAtApart(rs, i);
  }

  lemma JoinPages(rs: seq<Run>, i: nat, r: Run)
    requires i < |rs| && Touching(rs[i], r)
    ensures var j := JoinRuns(rs[i], r);
            PagesOf(j.page, j.count) == PagesOf(r.page, r.count) + PagesOf(rs[i].page, rs[i].count)
  {
    PagesHas(r.page, r.count);
    PagesHas(rs[i].page, rs[i].count);
    PagesHas(JoinRuns(rs[i], r).page, JoinRuns(rs[i], r).count);
  }

  function JoinRuns(f: Run, r: Run): Run {
    if f.End() == r.page then Run(f.page, r.count + f.count) else Run(r.page, r.count + f.count)
  }

  predicate AnyTouching(rs: seq<Run>, r: Run) { exists i :: 0 <= i < |rs| && Touching(rs[i], r) }

  lemma FoundTouching(rs: seq<Run>, i: nat, r: Run)
    requires i < |rs| && Touching(rs[i], r)
    ensures AnyTouching(rs, r)
  {
  }

  /** A live run that touches no free run is apart from all of them. */
  lemma NotTouchingIsApart(rs: seq<Run>, r: Run, bump: nat, live: set<nat>, lost: set<nat>)
    requires Split(rs, bump, live, lost) && r.count > 0 && PagesOf(r.page, r.count) <= live
    requires forall k :: 0 <= k < |rs| ==> !Touching(rs[k], r)
    ensures forall k :: 0 <= k < |rs| ==> Apart(rs[k], r)
  {
    PagesHas(r.page, r.count);
    forall k | 0 <= k < |rs| ensures Apart(rs[k], r) {
      LastPage(rs, k);
      assert rs[k].Has(r.page) ==> InRuns(rs, r.page);
      assert r.page in live;
      assert !Touching(rs[k], r);
    }
  }

  lemma TakenSize(live: set<nat>, page: nat, count: nat)
    requires PagesOf(page, count) !! live
    ensures |live + PagesOf(page, count)| == |live| + count
  {
    PagesSize(page, count);
  }

  lemma UndoneLive(live: set<nat>, page: nat, count: nat)
    requires PagesOf(page, count) !! live
    ensures live + PagesOf(page, count) - PagesOf(page, count) == live
  {
  }

  /** A run is its first `i` pages and the rest. */
  lemma SplitSubsets(page: nat, count: nat, i: nat, live: set<nat>)
    requires i <= count && PagesOf(page, count) <= live
    ensures PagesOf(page, i) <= live && PagesOf(page + i, count - i) <= live - PagesOf(page, i)
    ensures live - PagesOf(page, i) - PagesOf(page + i, count - i) == live - PagesOf(page, count)
  {
    PagesPrefix(page, count, i);
    SetSplit(PagesOf(page, i), PagesOf(page + i, count - i), live);
  }

  lemma PagesPrefix(page: nat, count: nat, i: nat)
    requires i <= count
    ensures PagesOf(page, count) == PagesOf(page, i) + PagesOf(page + i, count - i)
    ensures PagesOf(page, i) !! PagesOf(page + i, count - i)
  {
    PagesHas(page, count);
    PagesHas(page, i);
    PagesHas(page + i, count - i);
    hide PagesOf;
  }

  lemma SetSplit(a: set<nat>, b: set<nat>, live: set<nat>)
    requires a + b <= live && a !! b
    ensures a <= live && b <= live - a && live - a - b == live - (a + b)
  {
  }

  lemma SubsetSize(a: set<nat>, b: set<nat>)
    requires a <= b
    ensures |a| <= |b| && |b - a| == |b| - |a|
  {
    assert b == a + (b - a);
  }

  lemma ApartNotTouching(rs: seq<Run>, r: Run)
    requires forall i :: 0 <= i < |rs| ==> Apart(rs[i], r)
    ensures !AnyTouching(rs, r)
  {
  }

  lemma ShrunkTop(rs: seq<Run>, rs0: seq<Run>, r: Run, bump: nat)
    requires NoneAtTop(rs0, bump) && r.End() != bump && forall x :: x in rs ==> x in rs0
    ensures NoneAtTop(rs + [r], bump) && NoneAtTop(rs, bump)
  {
    forall i | 0 <= i < |rs| ensures rs[i].End() != bump { assert rs[i] in rs; }
  }
}
