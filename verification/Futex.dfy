/** Futexes as interleaved atomic steps: waits queue themselves under a lock and then poll, sleep
    and unlink on their own; a wake or requeue walks the queue holding the lock, while waits that
    do not need it run on (kernel/proc/futex.c:31-116, kernel/proc/sched.c:323-375). */
module Futex {
  /** Where a wait call is: about to link itself, testing `woken`, a pending signal, the clock, about to
      sleep, asleep, out of the loop with a result, or returned. */
  datatype Phase =
    Linking | Polling | Signals | Clock | Resting | Asleep | Leaving(rc: Errno) | Returned(res: Errno)

  datatype Errno = Success | EAGAIN | EINTR | ETIMEDOUT

  /** A wait call on word `addr`, queued under `key`. `pending` is its task's wake_pending flag; `marks`
      counts how often a wake or requeue marked it. */
  datatype Wait = Wait(addr: nat, key: nat, val: nat, timed: bool, phase: Phase, woken: bool, pending: bool, marks: nat)

  datatype Op =
    | WakeOp(key: nat, n: int)
    | RequeueOp(k1: nat, k2: nat, nwake: nat, nrequeue: nat, cmp: bool)

  /** The futex lock: free, held by a wait that has found the word unchanged and is not linked yet, or held
      by a walk now at queue position `at`; `kick` says the waiter there is marked and its task is still to
      be woken. */
  datatype Lock = Free | Entering(c: nat) | Walk(op: Op, at: nat, woken: nat, moved: nat, kick: bool)

  /** `queue` is the waiter list, newest first; `released` adds up what finished calls woke. */
  datatype State = State(words: map<nat, nat>, queue: seq<nat>, waits: map<nat, Wait>, lock: Lock, released: nat)

  datatype Step =
    | Store(key: nat, v: nat)
    | Test(c: nat, key: nat, val: nat, timed: bool, pending: bool)
    | Link(c: nat)
    | Poll(c: nat)
    | TestSignal(c: nat, signalled: bool)
    | TestClock(c: nat, expired: bool)
    | Sleep(c: nat)
    | Rouse(c: nat)
    | Unlink(c: nat)
    | Begin(op: Op, expected: nat)
    | Visit
    | Kick
    | Finish

  // ---- steps -----------------------------------------------------------------------------------

  function Word(s: State, key: nat): nat { if key in s.words then s.words[key] else 0 }

  predicate Active(w: Wait) { !w.phase.Returned? && !w.phase.Linking? }

  predicate InPhase(s: State, c: nat, p: Phase) { c in s.waits && s.waits[c].phase == p }

  function SetPhase(s: State, c: nat, p: Phase): State
    requires c in s.waits
  {
    s.(waits := s.waits[c := s.waits[c].(phase := p)])
  }

  /** Take the lock and test the word. */
  function DoTest(s: State, c: nat, key: nat, val: nat, timed: bool, pending: bool): State {
    if Word(s, key) != val
    then s.(waits := s.waits[c := Wait(key, key, val, timed, Returned(EAGAIN), false, pending, 0)])
    else s.(waits := s.waits[c := Wait(key, key, val, timed, Linking, false, pending, 0)], lock := Entering(c))
  }

  /** Queue up and let the lock go. */
  function DoLink(s: State, c: nat): State
    requires c in s.waits
  {
    State(s.words, [c] + s.queue, s.waits[c := s.waits[c].(phase := Polling)], Free, s.released)
  }

  /** task_block or task_sleep_ms: a wake that raced ahead is consumed instead of sleeping. */
  function DoSleep(s: State, c: nat): State
    requires c in s.waits
  {
    if s.waits[c].pending
    then s.(waits := s.waits[c := s.waits[c].(phase := Polling, pending := false)])
    else SetPhase(s, c, Asleep)
  }

  /** task_wake: run a sleeping task again, or leave the wake pending. */
  function TaskWake(w: Wait): Wait {
    if w.phase.Asleep? then w.(phase := Polling) else w.(pending := true)
  }

  function Without(q: seq<nat>, c: nat): seq<nat> {
    if q == [] then [] else if q[0] == c then q[1..] else [q[0]] + Without(q[1..], c)
  }

  /** Unlink under the lock; a wake that raced with a timeout or a signal wins. */
  function DoUnlink(s: State, c: nat): State
    requires c in s.waits && s.waits[c].phase.Leaving?
  {
    var w := s.waits[c];
    State(s.words, Without(s.queue, c), s.waits[c := w.(phase := Returned(if w.woken then Success else w.phase.rc))],
          s.lock, s.released)
  }

  datatype Action = Mark | Move | Skip

  /** What a walk does with a waiter. */
  function Decide(l: Lock, w: Wait): Action
    requires l.Walk?
  {
    match l.op
    case WakeOp(key, _) => if w.key == key && !w.woken then Mark else Skip
    case RequeueOp(k1, _, nwake, nrequeue, _) =>
      if w.key != k1 || w.woken then Skip
      else if l.woken < nwake then Mark
      else if l.moved < nrequeue then Move
      else Skip
  }

  /** The walk is over: the end of the queue, or for a wake enough waiters. */
  predicate Over(s: State)
    requires s.lock.Walk?
  {
    s.lock.at >= |s.queue| || (s.lock.op.WakeOp? && s.lock.woken >= s.lock.op.n)
  }

  function DoVisit(s: State): State
    requires s.lock.Walk? && s.lock.at < |s.queue| && s.queue[s.lock.at] in s.waits
  {
    var c, l := s.queue[s.lock.at], s.lock;
    match Decide(l, s.waits[c])
    case Mark => s.(waits := s.waits[c := Marked(s.waits[c])], lock := l.(woken := l.woken + 1, kick := true))
    case Move => s.(waits := s.waits[c := Moved(s.waits[c], l.op)], lock := l.(moved := l.moved + 1, at := l.at + 1))
    case Skip => s.(lock := l.(at := l.at + 1))
  }

  function Marked(w: Wait): Wait { w.(woken := true, marks := w.marks + 1) }

  function Moved(w: Wait, op: Op): Wait { if op.RequeueOp? then w.(key := op.k2) else w }

  function DoKick(s: State): State
    requires s.lock.Walk? && s.lock.at < |s.queue| && s.queue[s.lock.at] in s.waits
  {
    var c := s.queue[s.lock.at];
    s.(waits := s.waits[c := TaskWake(s.waits[c])], lock := s.lock.(kick := false, at := s.lock.at + 1))
  }

  /** What the call that holds the lock returns. */
  function Returns(l: Lock): nat
    requires l.Walk?
  {
    l.woken + if l.op.RequeueOp? && l.op.cmp then l.moved else 0
  }

  /** A compare-and-requeue whose word does not match fails without touching the queue. */
  predicate Refused(s: State, op: Op, expected: nat) { op.RequeueOp? && op.cmp && Word(s, op.k1) != expected }

  predicate Enabled(s: State, t: Step) {
    match t
    case Store(_, _) => true
    case Test(c, _, _, _, _) => c !in s.waits && s.lock.Free?
    case Link(c) => InPhase(s, c, Linking) && s.lock == Entering(c)
    case Poll(c) => InPhase(s, c, Polling)
    case TestSignal(c, _) => InPhase(s, c, Signals)
    case TestClock(c, _) => InPhase(s, c, Clock)
    case Sleep(c) => InPhase(s, c, Resting)
    case Rouse(c) => c in s.waits && !s.waits[c].phase.Returned?
    case Unlink(c) => c in s.waits && s.waits[c].phase.Leaving? && s.lock.Free?
    case Begin(op, expected) => s.lock.Free?
    case Visit => s.lock.Walk? && !s.lock.kick && !Over(s) && s.queue[s.lock.at] in s.waits
    case Kick => s.lock.Walk? && s.lock.kick && s.lock.at < |s.queue| && s.queue[s.lock.at] in s.waits
    case Finish => s.lock.Walk? && !s.lock.kick && Over(s)
  }

  /** One atomic step; a step that is not enabled does nothing. */
  function Next(s: State, t: Step): State {
    if !Enabled(s, t) then s
    else
      match t
      case Store(key, v) => s.(words := s.words[key := v])
      case Test(c, key, val, timed, pending) => DoTest(s, c, key, val, timed, pending)
      case Link(c) => DoLink(s, c)
      case Poll(c) => SetPhase(s, c, if s.waits[c].woken then Leaving(Success) else Signals)
      case TestSignal(c, signalled) => SetPhase(s, c, if signalled then Leaving(EINTR) else Clock)
      case TestClock(c, expired) => SetPhase(s, c, if s.waits[c].timed && expired then Leaving(ETIMEDOUT) else Resting)
      case Sleep(c) => DoSleep(s, c)
      case Rouse(c) => s.(waits := s.waits[c := TaskWake(s.waits[c])])
      case Unlink(c) => DoUnlink(s, c)
      case Begin(op, expected) => if Refused(s, op, expected) then s else s.(lock := Walk(op, 0, 0, 0, false))
      case Visit => DoVisit(s)
      case Kick => DoKick(s)
      case Finish => s.(lock := Free, released := s.released + s.lock.woken)
  }

  // ---- the invariant -----------------------------------------------------------------------------

  predicate NoDup(q: seq<nat>) { forall i, j :: 0 <= i < j < |q| ==> q[i] != q[j] }

  /** A waiter is on the list exactly while its call is active. */
  ghost predicate QueueOk(q: seq<nat>, waits: map<nat, Wait>) {
    && NoDup(q)
    && (forall c :: c in q ==> c in waits && Active(waits[c]))
    && (forall c :: c in waits && Active(waits[c]) ==> c in q)
  }

  /** It is marked at most once, returns success exactly if it was, and once marked it does not go to
      sleep, unless the walk has yet to wake its task. */
  predicate WaitOk(w: Wait, kicking: bool) {
    && w.marks == (if w.woken then 1 else 0)
    && (w.phase.Returned? ==> (w.phase.res == Success <==> w.woken))
    && (w.phase == Leaving(Success) ==> w.woken)
    && (w.phase.Asleep? && w.woken ==> kicking)
    && ((w.phase.Signals? || w.phase.Clock? || w.phase.Resting?) && w.woken ==> w.pending || kicking)
  }

  predicate KickOf(s: State, c: nat) { s.lock.Walk? && s.lock.kick && s.lock.at < |s.queue| && s.queue[s.lock.at] == c }

  ghost predicate WaitsOk(s: State) { forall c :: c in s.waits ==> WaitOk(s.waits[c], KickOf(s, c)) }

  ghost function MarkedWaits(waits: map<nat, Wait>): set<nat> { set c | c in waits && waits[c].woken }

  function InHand(l: Lock): nat { if l.Walk? then l.woken else 0 }

  /** What was released, finished calls and the one walking together, is what is marked. */
  ghost predicate CountOk(s: State) { s.released + InHand(s.lock) == |MarkedWaits(s.waits)| }

  /** A waiter a walk has passed over: not its key, or marked, or its quota is used up. */
  predicate Passed(l: Lock, w: Wait)
    requires l.Walk?
  {
    match l.op
    case WakeOp(key, _) => w.key == key ==> w.woken
    case RequeueOp(k1, k2, nwake, nrequeue, _) =>
      w.key == k1 && k1 != k2 ==> w.woken || (l.woken == nwake && l.moved == nrequeue)
  }

  ghost predicate WalkOk(s: State) {
    s.lock.Walk? ==>
      && (s.lock.kick ==> s.lock.at < |s.queue| && s.queue[s.lock.at] in s.waits && s.waits[s.queue[s.lock.at]].woken)
      && (s.lock.op.WakeOp? ==> s.lock.moved == 0 && (s.lock.woken == 0 || s.lock.woken <= s.lock.op.n))
      && (s.lock.op.RequeueOp? ==> s.lock.woken <= s.lock.op.nwake && s.lock.moved <= s.lock.op.nrequeue)
      && (forall i :: 0 <= i < s.lock.at && i < |s.queue| ==>
                        s.queue[i] in s.waits && Passed(s.lock, s.waits[s.queue[i]]))
  }

  /** A wait is about to link itself exactly while it holds the lock for that. */
  ghost predicate LinkOk(s: State) {
    && (forall c :: c in s.waits && s.waits[c].phase.Linking? ==> s.lock == Entering(c))
    && (s.lock.Entering? ==> s.lock.c in s.waits && s.waits[s.lock.c].phase.Linking? && !s.waits[s.lock.c].woken)
  }

  ghost predicate Inv(s: State) { QueueOk(s.queue, s.waits) && WaitsOk(s) && CountOk(s) && WalkOk(s) && LinkOk(s) }

  // ---- every step keeps it -------------------------------------------------------------------------

  /** A step of one wait that leaves its key, mark and place on the list alone. */
  lemma Touch(s: State, c: nat, w: Wait)
    requires Inv(s) && c in s.waits && WaitOk(w, KickOf(s, c))
    requires w.key == s.waits[c].key && w.woken == s.waits[c].woken && Active(w) == Active(s.waits[c])
    requires w.phase.Linking? == s.waits[c].phase.Linking?
    ensures Inv(s.(waits := s.waits[c := w]))
  {
    hide WaitOk, Passed;
    var s' := s.(waits := s.waits[c := w]);
    assert MarkedWaits(s'.waits) == MarkedWaits(s.waits);
    hide MarkedWaits, QueueOk;
    TouchQueue(s.queue, s.waits, c, w);
    if s.lock.Walk? {
      forall i | 0 <= i < s.lock.at && i < |s.queue| ensures Passed(s.lock, s'.waits[s.queue[i]]) {
        PassedSame(s.lock, s.waits[c], w);
      }
    }
    assert forall d :: KickOf(s', d) == KickOf(s, d);
  }

  lemma TouchQueue(q: seq<nat>, waits: map<nat, Wait>, c: nat, w: Wait)
    requires QueueOk(q, waits) && c in waits && Active(w) == Active(waits[c])
    ensures QueueOk(q, waits[c := w])
  {
  }

  lemma PassedSame(l: Lock, w: Wait, w': Wait)
    requires l.Walk? && w.key == w'.key && w.woken == w'.woken
    ensures Passed(l, w) == Passed(l, w')
  {
  }

  lemma TestKeeps(s: State, c: nat, key: nat, val: nat, timed: bool, pending: bool)
    requires Inv(s) && c !in s.waits && s.lock.Free?
    ensures Inv(DoTest(s, c, key, val, timed, pending))
  {
    if Word(s, key) != val {
      JoinKeeps(s, c, Wait(key, key, val, timed, Returned(EAGAIN), false, pending, 0), Free);
    } else {
      JoinKeeps(s, c, Wait(key, key, val, timed, Linking, false, pending, 0), Entering(c));
    }
  }

  /** A new wait appears, refused or about to link itself. */
  lemma JoinKeeps(s: State, c: nat, w: Wait, l: Lock)
    requires Inv(s) && c !in s.waits && s.lock.Free? && !w.woken && WaitOk(w, false) && !Active(w)
    requires l == if w.phase.Linking? then Entering(c) else Free
    ensures Inv(s.(waits := s.waits[c := w], lock := l))
  {
    hide WaitOk;
    var s' := s.(waits := s.waits[c := w], lock := l);
    assert MarkedWaits(s'.waits) == MarkedWaits(s.waits);
    EnterQueue(s.queue, s.waits, c, w);
    hide MarkedWaits, QueueOk;
    assert forall d :: !KickOf(s, d) && !KickOf(s', d);
  }

  lemma LinkKeeps(s: State, c: nat)
    requires Inv(s) && Enabled(s, Link(c))
    ensures Inv(DoLink(s, c))
  {
    WaitOf(s, c);
    var s', w := DoLink(s, c), s.waits[c].(phase := Polling);
    assert MarkedWaits(s'.waits) == MarkedWaits(s.waits);
    LinkQueue(s.queue, s.waits, c, w);
    assert WaitOk(w, false);
    hide MarkedWaits, QueueOk, WaitOk;
    assert forall d :: !KickOf(s, d) && !KickOf(s', d);
  }

  lemma LinkQueue(q: seq<nat>, waits: map<nat, Wait>, c: nat, w: Wait)
    requires QueueOk(q, waits) && c in waits && !Active(waits[c]) && Active(w)
    ensures QueueOk([c] + q, waits[c := w])
  {
  }

  lemma EnterQueue(q: seq<nat>, waits: map<nat, Wait>, c: nat, w: Wait)
    requires QueueOk(q, waits) && c !in waits && !Active(w)
    ensures QueueOk(q, waits[c := w])
  {
  }

  lemma UnlinkQueue(q: seq<nat>, waits: map<nat, Wait>, c: nat, w: Wait)
    requires QueueOk(q, waits) && c in waits && !Active(w)
    ensures QueueOk(Without(q, c), waits[c := w])
  {
    WithoutHas(q, c);
    hide Without, NoDup;
  }

  lemma {:induction false} WithoutHas(q: seq<nat>, c: nat)
    requires NoDup(q)
    ensures NoDup(Without(q, c)) && forall d :: d in Without(q, c) <==> d in q && d != c
  {
    if q != [] {
      WithoutHas(q[1..], c);
      if q[0] != c {
        var r := [q[0]] + Without(q[1..], c);
        forall i, j | 0 <= i < j < |r| ensures r[i] != r[j] { assert r[j] in q[1..]; }
      }
    }
  }

  lemma UnlinkKeeps(s: State, c: nat)
    requires Inv(s) && c in s.waits && s.waits[c].phase.Leaving? && s.lock.Free?
    ensures Inv(DoUnlink(s, c))
  {
    assert MarkedWaits(DoUnlink(s, c).waits) == MarkedWaits(s.waits);
    UnlinkQueue(s.queue, s.waits, c, DoUnlink(s, c).waits[c]);
    hide Without, MarkedWaits, QueueOk;
  }

  lemma MarkKeeps(s: State)
    requires Inv(s) && Enabled(s, Visit) && Decide(s.lock, s.waits[s.queue[s.lock.at]]).Mark?
    ensures Inv(DoVisit(s))
  {
    MarkWaits(s);
    MarkWalk(s);
    var c, s' := s.queue[s.lock.at], DoVisit(s);
    assert c in s.queue && !s.waits[c].woken;
    assert MarkedWaits(s'.waits) == MarkedWaits(s.waits) + {c};
    hide MarkedWaits, WaitsOk, WalkOk;
    TouchQueue(s.queue, s.waits, c, s'.waits[c]);
    hide QueueOk;
  }

  lemma MarkWaits(s: State)
    requires Inv(s) && Enabled(s, Visit) && Decide(s.lock, s.waits[s.queue[s.lock.at]]).Mark?
    ensures WaitsOk(DoVisit(s))
  {
    assert s.queue[s.lock.at] in s.queue && Active(s.waits[s.queue[s.lock.at]]);
    hide QueueOk, CountOk, WalkOk, LinkOk;
    NoKick(s, DoVisit(s));
  }

  lemma MarkWalk(s: State)
    requires Inv(s) && Enabled(s, Visit) && Decide(s.lock, s.waits[s.queue[s.lock.at]]).Mark?
    ensures WalkOk(DoVisit(s))
  {
    hide QueueOk, CountOk, WaitsOk, LinkOk;
    var c, s', l := s.queue[s.lock.at], DoVisit(s), s.lock;
    forall i | 0 <= i < l.at && i < |s.queue| ensures Passed(s'.lock, s'.waits[s.queue[i]]) {
      assert s.queue[i] != c by { QueueDistinct(s, i, l.at); }
      assert Passed(l, s.waits[s.queue[i]]);
    }
  }

  lemma QueueDistinct(s: State, i: nat, j: nat)
    requires QueueOk(s.queue, s.waits) && i < j < |s.queue|
    ensures s.queue[i] != s.queue[j]
  {
  }

  /** Only the waiter being kicked gained the flag. */
  lemma NoKick(s: State, s': State)
    requires s.lock.Walk? && !s.lock.kick && s'.queue == s.queue && s'.lock.Walk? && s'.lock.at == s.lock.at < |s.queue|
    ensures forall d :: !KickOf(s, d) && (KickOf(s', d) ==> d == s.queue[s.lock.at])
  {
  }

  lemma MoveKeeps(s: State)
    requires Inv(s) && Enabled(s, Visit) && Decide(s.lock, s.waits[s.queue[s.lock.at]]).Move?
    ensures Inv(DoVisit(s))
  {
    var c, s', l := s.queue[s.lock.at], DoVisit(s), s.lock;
    assert MarkedWaits(s'.waits) == MarkedWaits(s.waits);
    hide MarkedWaits;
    TouchQueue(s.queue, s.waits, c, s'.waits[c]);
    hide QueueOk;
    forall i | 0 <= i < l.at + 1 && i < |s.queue| ensures Passed(s'.lock, s'.waits[s.queue[i]]) {
      if i < l.at {
        assert s.queue[i] != c by { QueueDistinct(s, i, l.at); }
        assert Passed(l, s.waits[s.queue[i]]);
      }
    }
  }

  lemma SkipKeeps(s: State)
    requires Inv(s) && Enabled(s, Visit) && Decide(s.lock, s.waits[s.queue[s.lock.at]]).Skip?
    ensures Inv(DoVisit(s))
  {
    hide QueueOk, MarkedWaits;
    var s' := DoVisit(s);
    assert forall d :: !KickOf(s, d) && !KickOf(s', d);
  }

  lemma KickKeeps(s: State)
    requires Inv(s) && Enabled(s, Kick)
    ensures Inv(DoKick(s))
  {
    var c, s', l := s.queue[s.lock.at], DoKick(s), s.lock;
    assert MarkedWaits(s'.waits) == MarkedWaits(s.waits);
    hide MarkedWaits;
    TouchQueue(s.queue, s.waits, c, s'.waits[c]);
    hide QueueOk;
    assert forall d :: !KickOf(s', d) && (KickOf(s, d) ==> d == c);
    forall i | 0 <= i < l.at + 1 && i < |s.queue| ensures Passed(s'.lock, s'.waits[s.queue[i]]) {
      if i < l.at {
        assert s.queue[i] != c by { QueueDistinct(s, i, l.at); }
        assert Passed(l, s.waits[s.queue[i]]);
      }
    }
  }

  lemma StepKeeps(s: State, t: Step)
    requires Inv(s)
    ensures Inv(Next(s, t))
  {
    if Enabled(s, t) {
      hide Inv, DoTest, DoLink, DoUnlink, DoVisit, DoKick;
      match t {
        case Store(_, _) => StoreKeeps(s, t.key, t.v);
        case Test(c, key, val, timed, pending) => TestKeeps(s, c, key, val, timed, pending);
        case Link(c) => LinkKeeps(s, c);
        case Unlink(c) => UnlinkKeeps(s, c);
        case Begin(op, _) => BeginKeeps(s, op);
        case Visit =>
          match Decide(s.lock, s.waits[s.queue[s.lock.at]]) {
            case Mark => MarkKeeps(s);
            case Move => MoveKeeps(s);
            case Skip => SkipKeeps(s);
          }
        case Kick => KickKeeps(s);
        case Finish => FinishKeeps(s);
        case _ => OwnStepKeeps(s, t);
      }
    }
  }

  lemma StoreKeeps(s: State, key: nat, v: nat)
    requires Inv(s)
    ensures Inv(s.(words := s.words[key := v]))
  {
    hide QueueOk, MarkedWaits, WaitOk, Passed;
    assert forall c :: KickOf(s, c) == KickOf(s.(words := s.words[key := v]), c);
  }

  lemma BeginKeeps(s: State, op: Op)
    requires Inv(s) && s.lock.Free?
    ensures Inv(s.(lock := Walk(op, 0, 0, 0, false)))
  {
    hide QueueOk, MarkedWaits;
  }

  lemma FinishKeeps(s: State)
    requires Inv(s) && Enabled(s, Finish)
    ensures Inv(s.(lock := Free, released := s.released + s.lock.woken))
  {
    hide QueueOk, MarkedWaits;
  }

  /** The steps a wait takes on its own, without the lock. */
  lemma OwnStepKeeps(s: State, t: Step)
    requires Inv(s) && Enabled(s, t) && (t.Poll? || t.TestSignal? || t.TestClock? || t.Sleep? || t.Rouse?)
    ensures Inv(Next(s, t))
  {
    WaitOf(s, t.c);
    hide Inv;
    Touch(s, t.c, Next(s, t).waits[t.c]);
  }

  lemma WaitOf(s: State, c: nat)
    requires Inv(s) && c in s.waits
    ensures WaitOk(s.waits[c], KickOf(s, c))
  {
    hide WaitOk;
  }

  // ---- all interleavings -----------------------------------------------------------------------------

  predicate Init(s: State) { s.queue == [] && s.waits == map[] && s.lock.Free? && s.released == 0 }

  function Run(s: State, trace: seq<Step>): State {
    if trace == [] then s else Next(Run(s, trace[..|trace| - 1]), trace[|trace| - 1])
  }

  ghost predicate Reachable(s: State) { exists s0: State, trace: seq<Step> :: Init(s0) && Run(s0, trace) == s }

  lemma {:induction false} RunKeeps(s: State, trace: seq<Step>)
    requires Inv(s)
    ensures Inv(Run(s, trace))
  {
    hide Inv, Next;
    if trace != [] {
      RunKeeps(s, trace[..|trace| - 1]);
      StepKeeps(Run(s, trace[..|trace| - 1]), trace[|trace| - 1]);
    }
  }

  lemma InitInv(s: State)
    requires Init(s)
    ensures Inv(s)
  {
    assert MarkedWaits(s.waits) == {};
  }

  lemma ReachableInv(s: State)
    requires Reachable(s)
    ensures Inv(s)
  {
    hide Inv, Run, Init;
    var s0, trace :| Init(s0) && Run(s0, trace) == s;
    InitInv(s0);
    RunKeeps(s0, trace);
  }

  /** A wait is marked by at most one wake or requeue, and returns success exactly if it was, whatever
      timeout or signal raced with the mark. */
  lemma SuccessIffMarked(s: State, c: nat)
    requires Reachable(s) && c in s.waits
    ensures s.waits[c].marks <= 1
    ensures s.waits[c].phase.Returned? ==> (s.waits[c].phase.res == Success <==> s.waits[c].marks == 1)
  {
    hide Reachable;
    ReachableInv(s);
    WaitOf(s, c);
  }

  /** A waiter is on the list exactly from when it links itself until its call is over, so its frame never
      ends while listed; and it is listed once. */
  lemma ListedWhileActive(s: State, c: nat)
    requires Reachable(s)
    ensures c in s.queue <==> c in s.waits && Active(s.waits[c])
    ensures NoDup(s.queue)
  {
    hide Reachable;
    ReachableInv(s);
  }

  /** Once marked, a waiter is not left asleep: its task was woken, or is about to be. */
  lemma MarkedNotAsleep(s: State, c: nat)
    requires Reachable(s) && c in s.waits && s.waits[c].phase.Asleep? && s.waits[c].woken
    ensures KickOf(s, c)
  {
    hide Reachable;
    ReachableInv(s);
    WaitOf(s, c);
  }

  ghost function Successes(waits: map<nat, Wait>): set<nat> {
    set c | c in waits && waits[c].phase == Returned(Success)
  }

  /** The counts of finished calls add up to the waits released: when no call is walking and every
      wait has returned, they are the waits that returned success. */
  lemma CountsAddUp(s: State)
    requires Reachable(s) && s.lock.Free? && forall c :: c in s.waits ==> !Active(s.waits[c])
    ensures s.released == |Successes(s.waits)|
  {
    hide Reachable;
    ReachableInv(s);
    forall c | c in s.waits ensures s.waits[c].woken <==> s.waits[c].phase == Returned(Success) { WaitOf(s, c); }
    assert MarkedWaits(s.waits) == Successes(s.waits);
  }

  /** A wake is over and has found fewer waiters than it was asked for. */
  predicate FellShort(s: State) {
    s.lock.Walk? && s.lock.op.WakeOp? && !s.lock.kick && Over(s) && Returns(s.lock) < s.lock.op.n
  }

  /** A wake that found fewer waiters than it was asked for has marked every active wait on its key. */
  lemma WakeReachesAll(s: State, c: nat)
    requires Reachable(s) && FellShort(s)
    requires c in s.waits && Active(s.waits[c]) && s.waits[c].key == s.lock.op.key
    ensures s.waits[c].woken
  {
    hide Reachable;
    ReachableInv(s);
    OnQueue(s, c);
  }

  /** A requeue that stopped short of its quotas has left nobody unmarked on its first key. */
  lemma RequeueReachesAll(s: State, c: nat)
    requires Reachable(s) && s.lock.Walk? && s.lock.op.RequeueOp? && !s.lock.kick && Over(s)
    requires s.lock.op.k1 != s.lock.op.k2
    requires s.lock.woken < s.lock.op.nwake || s.lock.moved < s.lock.op.nrequeue
    requires c in s.waits && Active(s.waits[c]) && s.waits[c].key == s.lock.op.k1
    ensures s.waits[c].woken
  {
    hide Reachable;
    ReachableInv(s);
    OnQueue(s, c);
  }

  lemma OnQueue(s: State, c: nat)
    requires Inv(s) && s.lock.Walk? && c in s.waits && Active(s.waits[c]) && s.lock.at >= |s.queue|
    ensures Passed(s.lock, s.waits[c])
  {
    hide Passed;
    assert c in s.queue;
    var i :| 0 <= i < |s.queue| && s.queue[i] == c;
    assert Passed(s.lock, s.waits[s.queue[i]]);
  }

  predicate NoStore(trace: seq<Step>, key: nat) {
    forall i :: 0 <= i < |trace| ==> !(trace[i].Store? && trace[i].key == key)
  }

  /** Once the word has changed, a wait for its old value that comes later does not wait. */
  lemma {:induction false} LateWaitRefused(s: State, trace: seq<Step>, c: nat)
    requires c !in s.waits && c in Run(s, trace).waits
    requires NoStore(trace, Run(s, trace).waits[c].addr)
    requires Run(s, trace).waits[c].val != Word(s, Run(s, trace).waits[c].addr)
    ensures Run(s, trace).waits[c].phase == Returned(EAGAIN)
  {
    var a, v := Run(s, trace).waits[c].addr, Run(s, trace).waits[c].val;
    var n := |trace| - 1;
    if trace != [] {
      var s1 := Run(s, trace[..n]);
      WordKept(s, trace[..n], a);
      hide Run;
      if c in s1.waits {
        StepSame(s1, trace[n], c);
        LateWaitRefused(s, trace[..n], c);
        ReturnedStays(s1, trace[n], c);
      } else {
        EnteredNow(s1, trace[n], c);
      }
    }
  }

  /** No wake is lost. Take any moment `s` at which the word has changed, whatever waits are then between
      their test and their link, and any later moment at which a wake or requeue is under way, the word not
      stored to again. A wait for another value than the word's has returned, refused if it came after the
      change, or it is on the list; and if a wake of its key is over without having found as many as asked
      for, it is marked. */
  lemma NoLostWake(s: State, trace: seq<Step>, c: nat)
    requires Reachable(s) && Run(s, trace).lock.Walk? && c in Run(s, trace).waits
    requires NoStore(trace, Run(s, trace).waits[c].addr)
    requires Run(s, trace).waits[c].val != Word(s, Run(s, trace).waits[c].addr)
    ensures var t := Run(s, trace);
            && (c !in s.waits ==> t.waits[c].phase == Returned(EAGAIN))
            && (t.waits[c].phase.Returned? || c in t.queue)
            && (FellShort(t) && t.lock.op.key == t.waits[c].key ==> t.waits[c].phase.Returned? || t.waits[c].woken)
  {
    var t := Run(s, trace);
    if c !in s.waits { LateWaitRefused(s, trace, c); }
    RunReachable(s, trace);
    hide Run, Reachable, NoStore, Word;
    NoneLinking(t, c);
    ListedWhileActive(t, c);
    if FellShort(t) && t.lock.op.key == t.waits[c].key && Active(t.waits[c]) { WakeReachesAll(t, c); }
  }

  lemma NoneLinking(s: State, c: nat)
    requires Reachable(s) && s.lock.Walk? && c in s.waits
    ensures !s.waits[c].phase.Linking?
  {
    hide Reachable;
    ReachableInv(s);
  }

  lemma RunReachable(s: State, trace: seq<Step>)
    requires Reachable(s)
    ensures Reachable(Run(s, trace))
  {
    hide Next;
    var s0, before: seq<Step> :| Init(s0) && Run(s0, before) == s;
    RunAppend(s0, before, trace);
  }

  lemma {:induction false} RunAppend(s: State, a: seq<Step>, b: seq<Step>)
    ensures Run(s, a + b) == Run(Run(s, a), b)
  {
    hide Next;
    if b == [] {
      assert a + b == a;
    } else {
      assert (a + b)[..|a + b| - 1] == a + b[..|b| - 1];
      RunAppend(s, a, b[..|b| - 1]);
    }
  }

  lemma StepSame(s: State, t: Step, c: nat)
    requires c in s.waits
    ensures c in Next(s, t).waits && Next(s, t).waits[c].addr == s.waits[c].addr
    ensures Next(s, t).waits[c].val == s.waits[c].val
  {
    hide Without;
  }

  lemma ReturnedStays(s: State, t: Step, c: nat)
    requires c in s.waits && s.waits[c].phase.Returned?
    ensures c in Next(s, t).waits && Next(s, t).waits[c].phase == s.waits[c].phase
  {
    hide Without;
  }

  lemma EnteredNow(s: State, t: Step, c: nat)
    requires c !in s.waits && c in Next(s, t).waits
    ensures Next(s, t).waits[c].val != Word(s, Next(s, t).waits[c].addr) ==>
              Next(s, t).waits[c].phase == Returned(EAGAIN)
  {
    hide Without;
  }

  lemma {:induction false} WordKept(s: State, trace: seq<Step>, key: nat)
    requires NoStore(trace, key)
    ensures Word(Run(s, trace), key) == Word(s, key)
  {
    var n := |trace| - 1;
    if trace != [] {
      WordKept(s, trace[..n], key);
      StepWord(Run(s, trace[..n]), trace[n], key);
    }
  }

  lemma StepWord(s: State, t: Step, key: nat)
    requires !(t.Store? && t.key == key)
    ensures Word(Next(s, t), key) == Word(s, key)
  {
    hide Without, Enabled;
  }
}
