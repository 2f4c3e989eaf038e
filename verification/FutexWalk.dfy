/** What a whole wake or requeue does, whatever waits run in between (kernel/proc/futex.c:31-43, 99-116): it
    marks the first waiters of its own key in list order, as many as asked for, moves the next ones, and leaves
    all others alone. */
module FutexWalk {
  import opened Futex

  function KeyOf(op: Op): nat { if op.WakeOp? then op.key else op.k1 }

  // ---- one step ------------------------------------------------------------------------------------

  /** A wait becomes marked only by a wake or requeue of the key it has at that moment. */
  lemma MarkedByOwnKey(s: State, t: Step, c: nat)
    requires c in s.waits && !s.waits[c].woken && Next(s, t).waits[c].woken
    ensures t.Visit? && s.lock.Walk? && s.waits[c].key == KeyOf(s.lock.op)
  {
    hide Without;
  }

  /** Its key changes only from the first to the second key of a requeue, and only while it is not marked. */
  lemma MovedByRequeue(s: State, t: Step, c: nat)
    requires c in s.waits && Next(s, t).waits[c].key != s.waits[c].key
    ensures t.Visit? && s.lock.Walk? && s.lock.op.RequeueOp? && !s.waits[c].woken
    ensures s.waits[c].key == s.lock.op.k1 && Next(s, t).waits[c].key == s.lock.op.k2
  {
    hide Without;
  }

  /** A wait gives up for a signal, a passed deadline of its own or a mark, and for nothing else; and it does
      not go on once it has seen one of them. */
  lemma LeavesFor(s: State, t: Step, c: nat)
    requires c in s.waits && !s.waits[c].phase.Leaving?
    ensures var w, w' := s.waits[c], Next(s, t).waits[c];
            && (w'.phase == Leaving(EINTR) <==> w.phase.Signals? && t == TestSignal(c, true))
            && (w'.phase == Leaving(ETIMEDOUT) <==> w.phase.Clock? && w.timed && t == TestClock(c, true))
            && (w'.phase == Leaving(Success) <==> w.phase.Polling? && w.woken && t == Poll(c))
            && w'.phase != Leaving(EAGAIN)
  {
    if (t.Poll? || t.TestSignal? || t.TestClock?) && t.c == c {
      hide Without, DoVisit, DoKick, DoSleep, DoTest, DoLink, DoUnlink, TaskWake;
    } else {
      NotLeaving(s, t, c);
      hide Next;
    }
  }

  lemma NotLeaving(s: State, t: Step, c: nat)
    requires c in s.waits && !s.waits[c].phase.Leaving? && !((t.Poll? || t.TestSignal? || t.TestClock?) && t.c == c)
    ensures c in Next(s, t).waits && !Next(s, t).waits[c].phase.Leaving?
  {
    hide Without, Over, Decide, Refused;
  }

  /** What it then returns: the reason it left for, unless it was marked meanwhile. */
  lemma ReturnsReason(s: State, t: Step, c: nat)
    requires c in s.waits && !s.waits[c].phase.Returned? && Next(s, t).waits[c].phase.Returned?
    ensures t == Unlink(c) && s.waits[c].phase.Leaving? && c in s.waits
    ensures Next(s, t).waits[c].phase.res == if s.waits[c].woken then Success else s.waits[c].phase.rc
  {
    hide Without;
  }

  /** A wait that links itself comes first on the list, and nothing else puts a waiter there. */
  lemma LinksFirst(s: State, t: Step)
    ensures Next(s, t).queue ==
            match t
            case Link(c) => if Enabled(s, t) then [c] + s.queue else s.queue
            case Unlink(c) => if Enabled(s, t) then Without(s.queue, c) else s.queue
            case _ => s.queue
  {
    hide Without;
  }

  /** A wait goes to sleep exactly if no wake is pending for its task, and only a wake of its task, by the call that
      marked it or by something else, gets it up again. */
  lemma SleepsUntilWoken(s: State, t: Step, c: nat)
    requires c in s.waits
    ensures var w, w' := s.waits[c], Next(s, t).waits[c];
            && (w'.phase.Asleep? && !w.phase.Asleep? <==> w.phase.Resting? && !w.pending && t == Sleep(c))
            && (w.phase.Asleep? ==> (!w'.phase.Asleep? <==> t == Rouse(c) || (t.Kick? && KickOf(s, c))))
  {
    if t == Sleep(c) || t == Rouse(c) || t.Kick? {
      hide Without, DoVisit, DoTest, DoLink, DoUnlink;
    } else {
      PhaseKept(s, t, c);
      hide Next;
    }
  }

  lemma PhaseKept(s: State, t: Step, c: nat)
    requires c in s.waits && t != Sleep(c) && t != Rouse(c) && !t.Kick?
    ensures c in Next(s, t).waits && (Next(s, t).waits[c].phase.Asleep? <==> s.waits[c].phase.Asleep?)
  {
    hide Without, Over, Decide, Refused;
  }

  /** A wait is refused exactly if the word is not the value it expects. */
  lemma RefusedIff(s: State, c: nat, key: nat, val: nat, timed: bool, pending: bool)
    requires s.lock.Free? && c !in s.waits
    ensures var w := Next(s, Test(c, key, val, timed, pending)).waits[c];
            && w.addr == w.key == key && w.val == val && w.timed == timed && !w.woken
            && (w.phase == Returned(EAGAIN) <==> Word(s, key) != val) && (w.phase.Linking? <==> Word(s, key) == val)
  {
  }

  /** A compare-and-requeue begins exactly if the word is the value it expects; every other call begins. */
  lemma BeginsIff(s: State, op: Op, expected: nat)
    requires s.lock.Free?
    ensures var s' := Next(s, Begin(op, expected));
            if op.RequeueOp? && op.cmp && Word(s, op.k1) != expected then s' == s
            else s' == s.(lock := Walk(op, 0, 0, 0, false))
  {
  }

  // ---- a whole walk --------------------------------------------------------------------------------

  predicate Eligible(s: State, op: Op, c: nat) { c in s.waits && s.waits[c].key == KeyOf(op) && !s.waits[c].woken }

  /** How many eligible waiters stand before position `i`. */
  function Rank(s: State, op: Op, i: nat): nat
    requires i <= |s.queue|
  {
    if i == 0 then 0 else Rank(s, op, i - 1) + if Eligible(s, op, s.queue[i - 1]) then 1 else 0
  }

  /** How many are to be marked, and how many to be moved. */
  function Quota(op: Op): nat { if op.RequeueOp? then op.nwake else if op.n < 0 then 0 else op.n }

  function Extra(op: Op): nat { if op.RequeueOp? then op.nrequeue else 0 }

  function Min(a: nat, b: nat): nat { if a < b then a else b }

  /** What becomes of the waiter at position `i` of the list `s` has when the walk begins. */
  predicate Fated(s: State, op: Op, i: nat, w: Wait)
    requires i < |s.queue| && s.queue[i] in s.waits
  {
    var w0, r := s.waits[s.queue[i]], Rank(s, op, i);
    var e := Eligible(s, op, s.queue[i]);
    && w.woken == (w0.woken || (e && r < Quota(op)))
    && w.key == (if op.RequeueOp? && e && Quota(op) <= r < Quota(op) + Extra(op) then op.k2 else w0.key)
  }

  predicate Same(w: Wait, w': Wait) { w.key == w'.key && w.woken == w'.woken }

  /** From `s` on the trace stays within one walk. */
  ghost predicate Walking(s: State, trace: seq<Step>) {
    forall i :: 0 <= i <= |trace| ==> Run(s, trace[..i]).lock.Walk?
  }

  /** How far the walk has come: past the waiter it is about to wake. */
  function Done(l: Lock): nat
    requires l.Walk?
  {
    if l.kick then l.at + 1 else l.at
  }

  ghost predicate Listed(s: State) { NoDup(s.queue) && forall i :: 0 <= i < |s.queue| ==> s.queue[i] in s.waits }

  /** The state `t` in the middle of a walk `op` that began in `s`. */
  ghost predicate Mid(s: State, op: Op, t: State)
    requires Listed(s)
  {
    && t.lock.Walk? && t.lock.op == op && t.queue == s.queue && Done(t.lock) <= |s.queue|
    && Counted(op, t.lock, Rank(s, op, Done(t.lock)))
    && (forall c :: c in s.waits ==> c in t.waits)
    && (forall i :: 0 <= i < |s.queue| ==>
          if i < Done(t.lock) then Fated(s, op, i, t.waits[s.queue[i]])
          else Same(s.waits[s.queue[i]], t.waits[s.queue[i]]))
    && (forall c :: c in s.waits && c !in s.queue ==> Same(s.waits[c], t.waits[c]))
  }

  predicate Counted(op: Op, l: Lock, found: nat)
    requires l.Walk?
  {
    && l.woken == Min(Quota(op), found) && l.moved == Min(Extra(op), found - l.woken)
    && (op.WakeOp? ==> found <= Quota(op))
  }

  lemma BeginMid(s: State, op: Op)
    requires Listed(s)
    ensures Mid(s, op, s.(lock := Walk(op, 0, 0, 0, false)))
  {
  }

  lemma StepMid(s: State, op: Op, t: State, st: Step)
    requires Listed(s) && Mid(s, op, t) && Next(t, st).lock.Walk?
    ensures Mid(s, op, Next(t, st))
  {
    if Enabled(t, st) {
      if st.Visit? {
        hide Mid, DoVisit;
        VisitMid(s, op, t);
      } else {
        QuietStep(t, st);
        hide Next, Enabled;
        QuietMid(s, op, t, Next(t, st));
      }
    }
  }

  /** `t'` differs from `t` in nothing the walk has done. */
  ghost predicate Quiet(t: State, t': State) {
    && t.lock.Walk? && t'.lock.Walk? && t'.queue == t.queue && t'.lock.op == t.lock.op
    && t'.lock.woken == t.lock.woken && t'.lock.moved == t.lock.moved && Done(t'.lock) == Done(t.lock)
    && forall c :: c in t.waits ==> c in t'.waits && Same(t.waits[c], t'.waits[c])
  }

  lemma QuietStep(t: State, st: Step)
    requires t.lock.Walk? && Enabled(t, st) && !st.Visit? && Next(t, st).lock.Walk?
    ensures Quiet(t, Next(t, st))
  {
    hide Without, Over;
  }

  lemma QuietMid(s: State, op: Op, t: State, t': State)
    requires Listed(s) && Mid(s, op, t) && Quiet(t, t')
    ensures Mid(s, op, t')
  {
    hide Rank;
  }

  lemma VisitMid(s: State, op: Op, t: State)
    requires Listed(s) && Mid(s, op, t) && Enabled(t, Visit)
    ensures Mid(s, op, DoVisit(t))
  {
    hide Listed, Mid, DoVisit;
    MidFacts(s, op, t);
    VisitFate(s, op, t);
    VisitOne(t);
    RankNext(s, op, t.lock.at);
    MidNext(s, op, t, DoVisit(t));
  }

  lemma MidFacts(s: State, op: Op, t: State)
    requires Listed(s) && Mid(s, op, t)
    ensures t.lock.Walk? && t.lock.op == op && t.queue == s.queue && Done(t.lock) <= |s.queue|
    ensures forall i :: 0 <= i < |s.queue| ==> s.queue[i] in s.waits
  {
  }

  lemma RankNext(s: State, op: Op, i: nat)
    requires i < |s.queue|
    ensures Rank(s, op, i + 1) == Rank(s, op, i) + if Eligible(s, op, s.queue[i]) then 1 else 0
  {
  }

  /** One waiter further. */
  lemma MidNext(s: State, op: Op, t: State, t': State)
    requires Listed(s) && Mid(s, op, t) && !t.lock.kick && t.lock.at < |s.queue|
    requires t'.lock.Walk? && t'.lock.op == op && t'.queue == t.queue && Done(t'.lock) == t.lock.at + 1
    requires t'.waits.Keys == t.waits.Keys
    requires forall c :: c in t.waits && c != s.queue[t.lock.at] ==> t'.waits[c] == t.waits[c]
    requires Fated(s, op, t.lock.at, t'.waits[s.queue[t.lock.at]])
    requires Counted(op, t'.lock, Rank(s, op, t.lock.at + 1))
    ensures Mid(s, op, t')
  {
    hide Rank, Fated, Counted;
    forall j | 0 <= j < |s.queue| && j != t.lock.at ensures s.queue[j] != s.queue[t.lock.at] {}
  }

  lemma VisitOne(t: State)
    requires Enabled(t, Visit)
    ensures var t' := DoVisit(t);
            && t'.lock.Walk? && t'.lock.op == t.lock.op && t'.queue == t.queue && t'.waits.Keys == t.waits.Keys
            && forall c :: c in t.waits && c != t.queue[t.lock.at] ==> t'.waits[c] == t.waits[c]
  {
  }

  lemma VisitFate(s: State, op: Op, t: State)
    requires Listed(s) && Mid(s, op, t) && Enabled(t, Visit)
    ensures Fated(s, op, t.lock.at, DoVisit(t).waits[s.queue[t.lock.at]]) && Done(DoVisit(t).lock) == t.lock.at + 1
    ensures Counted(op, DoVisit(t).lock,
                    Rank(s, op, t.lock.at) + if Eligible(s, op, s.queue[t.lock.at]) then 1 else 0)
  {
    hide Rank;
    assert Same(s.waits[s.queue[t.lock.at]], t.waits[s.queue[t.lock.at]]);
  }

  lemma {:induction false} RunMid(s: State, op: Op, t: State, trace: seq<Step>)
    requires Listed(s) && Mid(s, op, t) && Walking(t, trace)
    ensures Mid(s, op, Run(t, trace))
  {
    hide Mid, Next;
    if trace != [] {
      var before := trace[..|trace| - 1];
      assert forall i :: 0 <= i <= |before| ==> before[..i] == trace[..i];
      RunMid(s, op, t, before);
      assert trace[..|trace|] == trace;
      StepMid(s, op, Run(t, before), trace[|trace| - 1]);
    }
  }

  /** What is true when the call `op` that began in `s` is over in `t`: of the waiters of its key that were
      unmarked at the start, in list order, the first `nwake` are marked, the next `nrequeue` are moved to the
      second key, and nothing else changed keys or was marked. It returns how many it marked, and for a comparing
      requeue also how many it moved. */
  ghost predicate Outcome(s: State, op: Op, t: State) {
    && t.queue == s.queue && t.lock.Walk?
    && (forall i :: 0 <= i < |s.queue| ==>
          s.queue[i] in s.waits && s.queue[i] in t.waits && Fated(s, op, i, t.waits[s.queue[i]]))
    && (forall c :: c in s.waits && c !in s.queue ==> c in t.waits && Same(s.waits[c], t.waits[c]))
    && var found := Rank(s, op, |s.queue|);
       var marked := Min(Quota(op), found);
       Returns(t.lock) == marked + if op.RequeueOp? && op.cmp then Min(op.nrequeue, found - marked) else 0
  }

  /** Exactly what a call has done when it is over, with any steps of any waits in between. */
  lemma WalkExact(s: State, op: Op, trace: seq<Step>)
    requires Reachable(s) && s.lock.Free?
    requires var s1 := s.(lock := Walk(op, 0, 0, 0, false));
             Walking(s1, trace) && Run(s1, trace).lock.Walk? && !Run(s1, trace).lock.kick && Over(Run(s1, trace))
    ensures Outcome(s, op, Run(s.(lock := Walk(op, 0, 0, 0, false)), trace))
  {
    ListedNow(s);
    hide Reachable, Mid, Outcome, Listed;
    BeginMid(s, op);
    var s1 := s.(lock := Walk(op, 0, 0, 0, false));
    RunMid(s, op, s1, trace);
    MidOver(s, op, Run(s1, trace));
  }

  lemma ListedNow(s: State)
    requires Reachable(s)
    ensures Listed(s)
  {
    hide Reachable;
    ReachableInv(s);
    forall i | 0 <= i < |s.queue| ensures s.queue[i] in s.waits { assert s.queue[i] in s.queue; }
  }

  lemma MidOver(s: State, op: Op, t: State)
    requires Listed(s) && Mid(s, op, t) && Over(t) && !t.lock.kick
    ensures Outcome(s, op, t)
  {
    if t.lock.at < |s.queue| { EndedEarly(s, op, t); }
    hide Fated, Rank;
  }

  /** A wake that stops before the end of the list has marked all it was asked for. */
  lemma EndedEarly(s: State, op: Op, t: State)
    requires Listed(s) && Mid(s, op, t) && Over(t) && !t.lock.kick && t.lock.at < |s.queue|
    ensures op.WakeOp? && t.lock.moved == 0 && t.lock.woken == Quota(op) <= Rank(s, op, |s.queue|)
    ensures forall i :: t.lock.at <= i < |s.queue| ==> Fated(s, op, i, t.waits[s.queue[i]])
  {
    RankGrows(s, op, t.lock.at, |s.queue|);
    forall i | t.lock.at <= i < |s.queue| ensures Fated(s, op, i, t.waits[s.queue[i]]) {
      RankGrows(s, op, t.lock.at, i);
    }
  }

  lemma {:induction false} RankGrows(s: State, op: Op, i: nat, j: nat)
    requires i <= j <= |s.queue|
    ensures Rank(s, op, i) <= Rank(s, op, j)
    decreases j
  {
    if i < j { RankGrows(s, op, i, j - 1); }
  }

  /** No call gets stuck: while one holds the lock, exactly one of its own steps is possible. */
  lemma WalkGoesOn(s: State)
    requires Reachable(s) && s.lock.Walk?
    ensures Enabled(s, Kick) <==> s.lock.kick
    ensures Enabled(s, Visit) <==> !s.lock.kick && !Over(s)
    ensures Enabled(s, Finish) <==> !s.lock.kick && Over(s)
    ensures Next(s, Finish) == if Enabled(s, Finish) then s.(lock := Free, released := s.released + s.lock.woken) else s
  {
    hide Reachable;
    ReachableInv(s);
    if s.lock.at < |s.queue| { assert s.queue[s.lock.at] in s.queue; }
  }

  /** Nor does a wait: each can take a step of its own, unless it sleeps or needs the lock. */
  lemma WaitGoesOn(s: State, c: nat)
    requires Reachable(s) && c in s.waits
    ensures match s.waits[c].phase
            case Linking => Enabled(s, Link(c))
            case Polling => Enabled(s, Poll(c))
            case Signals => Enabled(s, TestSignal(c, true)) && Enabled(s, TestSignal(c, false))
            case Clock => Enabled(s, TestClock(c, true)) && Enabled(s, TestClock(c, false))
            case Resting => Enabled(s, Sleep(c))
            case Leaving(_) => Enabled(s, Unlink(c)) <==> s.lock.Free?
            case Asleep => !s.waits[c].woken || KickOf(s, c)
            case Returned(_) => true
  {
    hide Reachable;
    ReachableInv(s);
    WaitOf(s, c);
  }
}
