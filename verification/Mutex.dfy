// thrMutexLock and thrMutexUnlock with thrCondWait inside, as interleaved steps of one
// memory operation each; only the repaired release of m->lk and falling asleep are one step.
module Mutex {
  // Where a thread is; the comments give the line of its next operation.
  datatype Pc =
    | Idle
    | LockSpin            // thread.c:264, xchg on m->lk
    | LockTest            // thread.c:265, reads m->lock
    | WaitSpin            // thread.c:185, xchg on thrque_lock
    | WaitRelease         // thread.c:186, m->lk = 0
    | WaitMark            // thread.c:190
    | WaitSleep           // thread.c:191
    | Asleep              // thread.c:192, in thrSched until it is READY
    | WaitClear           // thread.c:193
    | WaitUnlockQueue     // thread.c:197, thrque_lock = 0
    | WaitRelock          // thread.c:198, xchg on m->lk
    | Take                // thread.c:269, m->lock = 1
    | LockDone            // thread.c:270, m->lk = 0
    | Critical            // thrMutexLock has returned
    | UnlockSpin          // thread.c:275, xchg on m->lk
    | UnlockClear         // thread.c:276, m->lock = 0
    | Wake(i: nat, look: Look) // thread.c:216-222, slot i
    | UnlockDone          // thread.c:278, m->lk = 0

  // The part of a turn of the broadcast's loop: the two comparisons and the assignment.
  datatype Look =
    | Status              // thread.c:218, reads the status
    | Condition           // thread.c:218, reads cv
    | Rouse               // thread.c:220, sets the status to READY

  // asleep: the status is SLEEPING; waits: cv is the mutex.
  datatype Thread = Thread(pc: Pc, asleep: bool, waits: bool)

  // The lock words, true for 1.
  datatype Words = Words(lk: bool, lock: bool, queue: bool)

  datatype State = State(w: Words, th: seq<Thread>)

  function Init(n: nat): State {
    State(Words(false, false, false), seq(n, _ => Thread(Idle, false, false)))
  }

  // What one operation does to the words and to the thread, among n slots.  With `repaired`,
  // releasing m->lk, going to sleep and letting go of thrque_lock are one step, and a woken
  // thread has no thrque_lock to release.  In a broadcast, hit is what the comparison comes to.
  function Act(repaired: bool, w: Words, t: Thread, n: nat, hit: bool): (Words, Thread) {
    match t.pc
    case Idle => (w, t.(pc := LockSpin))
    case LockSpin => if w.lk then (w, t) else (w.(lk := true), t.(pc := LockTest))
    case LockTest => (w, t.(pc := if w.lock then WaitSpin else Take))
    case WaitSpin => if w.queue then (w, t) else (w.(queue := true), t.(pc := WaitRelease))
    case WaitRelease =>
      if repaired then (Words(false, w.lock, false), Thread(Asleep, true, true))
      else (w.(lk := false), t.(pc := WaitMark))
    case WaitMark => (w, t.(pc := WaitSleep, waits := true))
    case WaitSleep => (w, t.(pc := Asleep, asleep := true))
    case Asleep => (w, if t.asleep then t else t.(pc := WaitClear))
    case WaitClear => (w, t.(pc := if repaired then WaitRelock else WaitUnlockQueue, waits := false))
    case WaitUnlockQueue => (w.(queue := false), t.(pc := WaitRelock))
    case WaitRelock => if w.lk then (w, t) else (w.(lk := true), t.(pc := LockTest))
    case Take => (w.(lock := true), t.(pc := LockDone))
    case LockDone => (w.(lk := false), t.(pc := Critical))
    case Critical => (w, t.(pc := UnlockSpin))
    case UnlockSpin => if w.lk then (w, t) else (w.(lk := true), t.(pc := UnlockClear))
    case UnlockClear => (w.(lock := false), t.(pc := Wake(1, Status)))
    case Wake(k, look) =>
      (w, t.(pc :=
         if k >= n then UnlockDone
         else if look.Status? && hit then Wake(k, Condition)
         else if look.Condition? && hit then Wake(k, Rouse)
         else Wake(k + 1, Status)))
    case UnlockDone => (w.(lk := false), t.(pc := Idle))
  }

  // What a broadcast at slot i reads there.
  predicate Hit(th: seq<Thread>, pc: Pc) {
    && pc.Wake? && pc.i < |th|
    && (pc.look.Status? ==> th[pc.i].asleep)
    && (pc.look.Condition? ==> th[pc.i].waits)
  }

  function Roused(th: seq<Thread>, pc: Pc): (r: seq<Thread>)
    ensures |r| == |th|
  {
    if pc.Wake? && pc.look.Rouse? && pc.i < |th| then th[pc.i := th[pc.i].(asleep := false)] else th
  }

  // One operation of thread i.
  function Move(repaired: bool, s: State, i: nat): State
    requires i < |s.th|
  {
    var t := s.th[i];
    var (w, next) := Act(repaired, s.w, t, |s.th|, Hit(s.th, t.pc));
    State(w, Roused(s.th, t.pc)[i := next])
  }

  // A run is the sequence of the threads that move.
  function Run(repaired: bool, s: State, moves: seq<nat>): State
    decreases |moves|
  {
    if moves == [] then s
    else
      var p := Run(repaired, s, moves[..|moves| - 1]);
      var i := moves[|moves| - 1];
      if i < |p.th| then Move(repaired, p, i) else p
  }

  // ---- mutual exclusion

  // Inside m->lk.
  predicate Inner(pc: Pc) {
    || pc.LockTest? || pc.WaitSpin? || pc.WaitRelease? || pc.Take? || pc.LockDone?
    || pc.UnlockClear? || pc.Wake? || pc.UnlockDone?
  }

  // From the set of m->lock to its clear: the mutex is held.
  predicate Owns(pc: Pc) {
    pc.LockDone? || pc.Critical? || pc.UnlockSpin? || pc.UnlockClear?
  }

  // Inside thrque_lock.
  predicate Queued(repaired: bool, pc: Pc) {
    pc.WaitRelease? ||
    (!repaired && (pc.WaitMark? || pc.WaitSleep? || pc.Asleep? || pc.WaitClear? || pc.WaitUnlockQueue?))
  }

  datatype Word = Inside | Mutual | Queue

  predicate Value(w: Word, ws: Words) {
    match w
    case Inside => ws.lk
    case Mutual => ws.lock
    case Queue => ws.queue
  }

  predicate Holds(w: Word, repaired: bool, pc: Pc) {
    match w
    case Inside => Inner(pc)
    case Mutual => Owns(pc)
    case Queue => Queued(repaired, pc)
  }

  // At most one thread holds the word, and its value says whether one does.
  ghost predicate Guards(w: Word, repaired: bool, s: State) {
    && (forall i, j :: 0 <= i < j < |s.th| ==>
          !(Holds(w, repaired, s.th[i].pc) && Holds(w, repaired, s.th[j].pc)))
    && (Value(w, s.w) <==> exists i :: 0 <= i < |s.th| && Holds(w, repaired, s.th[i].pc))
  }

  // What the place of a thread says about the words.
  predicate Placed(repaired: bool, pc: Pc, ws: Words) {
    && (Inner(pc) ==> ws.lk)
    && (Owns(pc) ==> ws.lock)
    && (Queued(repaired, pc) ==> ws.queue)
    && Tested(repaired, pc, ws)
  }

  predicate Tested(repaired: bool, pc: Pc, ws: Words) {
    Found(pc, ws) && Freed(pc, ws) && (repaired ==> !OnlyWritten(pc))
  }

  // What the thread has found m->lock to be, and what it has made it.
  predicate Found(pc: Pc, ws: Words) {
    && (pc.Take? ==> !ws.lock)
    && (pc.WaitSpin? || pc.WaitRelease? ==> ws.lock)
  }

  predicate Freed(pc: Pc, ws: Words) {
    pc.Wake? || pc.UnlockDone? ==> !ws.lock
  }

  // Where a repaired thread never is.
  predicate OnlyWritten(pc: Pc) {
    pc.WaitMark? || pc.WaitSleep? || pc.WaitUnlockQueue?
  }

  ghost predicate Inv(repaired: bool, s: State) {
    && (forall w :: Guards(w, repaired, s))
    && (forall i :: 0 <= i < |s.th| ==> Placed(repaired, s.th[i].pc, s.w))
  }

  // How a thread moving from pc to next may change a word.
  predicate Passes(before: bool, after: bool, value: bool, next: bool) {
    || (before == after && value == next)
    || (!before && after && !value && next)
    || (before && !after && !next)
  }

  lemma GuardStep(w: Word, repaired: bool, s: State, t: State, i: nat)
    requires Guards(w, repaired, s) && |t.th| == |s.th| && i < |s.th|
    requires forall j :: 0 <= j < |s.th| && j != i ==> t.th[j].pc == s.th[j].pc
    requires Passes(Holds(w, repaired, s.th[i].pc), Holds(w, repaired, t.th[i].pc), Value(w, s.w), Value(w, t.w))
    ensures Guards(w, repaired, t)
  {
    hide Holds, Value;
    if Holds(w, repaired, t.th[i].pc) {
      assert forall j :: 0 <= j < |s.th| && j != i ==> !Holds(w, repaired, s.th[j].pc);
    } else if Value(w, t.w) {
      var k :| 0 <= k < |s.th| && Holds(w, repaired, s.th[k].pc);
      assert Holds(w, repaired, t.th[k].pc);
    } else if Holds(w, repaired, s.th[i].pc) {
      assert forall j :: 0 <= j < |s.th| && j != i ==> !Holds(w, repaired, s.th[j].pc);
    }
  }

  lemma MoveFrame(repaired: bool, s: State, i: nat)
    requires i < |s.th|
    ensures
      var t := Move(repaired, s, i);
      && |t.th| == |s.th|
      && (forall j :: 0 <= j < |s.th| && j != i ==> t.th[j].pc == s.th[j].pc)
  {
    hide Act;
  }

  lemma ActInside(repaired: bool, w: Words, t: Thread, n: nat, hit: bool)
    requires Inner(t.pc) ==> w.lk
    ensures
      var (w', t') := Act(repaired, w, t, n, hit);
      && Passes(Inner(t.pc), Inner(t'.pc), w.lk, w'.lk)
  {
  }

  lemma ActMutual(repaired: bool, w: Words, t: Thread, n: nat, hit: bool)
    requires (Owns(t.pc) ==> w.lock) && Tested(repaired, t.pc, w)
    ensures
      var (w', t') := Act(repaired, w, t, n, hit);
      && Passes(Owns(t.pc), Owns(t'.pc), w.lock, w'.lock)
  {
  }

  lemma ActQueue(repaired: bool, w: Words, t: Thread, n: nat, hit: bool)
    requires (Queued(repaired, t.pc) ==> w.queue) && Tested(repaired, t.pc, w)
    ensures
      var (w', t') := Act(repaired, w, t, n, hit);
      && Passes(Queued(repaired, t.pc), Queued(repaired, t'.pc), w.queue, w'.queue)
  {
  }

  lemma ActPasses(word: Word, repaired: bool, w: Words, t: Thread, n: nat, hit: bool)
    requires Placed(repaired, t.pc, w)
    ensures
      var (w', t') := Act(repaired, w, t, n, hit);
      && Passes(Holds(word, repaired, t.pc), Holds(word, repaired, t'.pc), Value(word, w), Value(word, w'))
  {
    hide Act, Inner, Owns, Queued, Tested, Passes;
    ActInside(repaired, w, t, n, hit);
    ActMutual(repaired, w, t, n, hit);
    ActQueue(repaired, w, t, n, hit);
  }

  lemma MoveGuards(w: Word, repaired: bool, s: State, i: nat)
    requires i < |s.th| && Inv(repaired, s)
    ensures Guards(w, repaired, Move(repaired, s, i))
  {
    MoveFrame(repaired, s, i);
    hide Holds, Passes, Value, Act, Placed;
    ActPasses(w, repaired, s.w, s.th[i], |s.th|, Hit(s.th, s.th[i].pc));
    GuardStep(w, repaired, s, Move(repaired, s, i), i);
  }

  lemma ActPlaced(repaired: bool, w: Words, t: Thread, n: nat, hit: bool)
    requires Placed(repaired, t.pc, w)
    ensures
      var (w', t') := Act(repaired, w, t, n, hit);
      && Placed(repaired, t'.pc, w')
  {
    hide Act, Inner, Owns, Queued, Tested;
    ActTested(repaired, w, t, n, hit);
    ActInside(repaired, w, t, n, hit);
    ActMutual(repaired, w, t, n, hit);
    ActQueue(repaired, w, t, n, hit);
  }

  lemma ActTested(repaired: bool, w: Words, t: Thread, n: nat, hit: bool)
    requires Tested(repaired, t.pc, w)
    ensures
      var (w', t') := Act(repaired, w, t, n, hit);
      && Tested(repaired, t'.pc, w')
  {
    hide Act, Found, Freed, OnlyWritten;
    ActFound(repaired, w, t, n, hit);
    ActFreed(repaired, w, t, n, hit);
    if repaired { ActOnlyWritten(w, t, n, hit); }
  }

  lemma ActFound(repaired: bool, w: Words, t: Thread, n: nat, hit: bool)
    requires Found(t.pc, w)
    ensures var (w', t') := Act(repaired, w, t, n, hit); Found(t'.pc, w')
  {
  }

  lemma ActFreed(repaired: bool, w: Words, t: Thread, n: nat, hit: bool)
    requires Freed(t.pc, w)
    ensures var (w', t') := Act(repaired, w, t, n, hit); Freed(t'.pc, w')
  {
  }

  lemma ActOnlyWritten(w: Words, t: Thread, n: nat, hit: bool)
    requires !OnlyWritten(t.pc)
    ensures var (w', t') := Act(true, w, t, n, hit); !OnlyWritten(t'.pc)
  {
  }

  // The place of another thread stays consistent: the words its place speaks of are its own, or
  // the mover would have had to be inside m->lk with it.
  lemma ActOther(repaired: bool, w: Words, t: Thread, n: nat, hit: bool, other: Pc)
    requires Placed(repaired, t.pc, w) && Placed(repaired, other, w)
    requires !(Inner(t.pc) && Inner(other))
    requires !(Owns(t.pc) && Owns(other))
    requires !(Queued(repaired, t.pc) && Queued(repaired, other))
    ensures
      var (w', t') := Act(repaired, w, t, n, hit);
      && Placed(repaired, other, w')
  {
    var (w', t') := Act(repaired, w, t, n, hit);
    assert w.lk && !w'.lk ==> Inner(t.pc);
    assert w.queue && !w'.queue ==> Queued(repaired, t.pc);
    assert w.lock != w'.lock ==> Inner(t.pc) && (w.lock ==> Owns(t.pc));
    hide Act;
  }

  lemma MoveKeepsInv(repaired: bool, s: State, i: nat)
    requires i < |s.th| && Inv(repaired, s)
    ensures Inv(repaired, Move(repaired, s, i))
  {
    var t := Move(repaired, s, i);
    forall w: Word
      ensures Guards(w, repaired, t)
    {
      MoveGuards(w, repaired, s, i);
    }
    MoveFrame(repaired, s, i);
    assert Guards(Inside, repaired, s) && Guards(Mutual, repaired, s) && Guards(Queue, repaired, s);
    hide Act, Placed, Inner, Owns, Queued;
    forall j | 0 <= j < |s.th|
      ensures Placed(repaired, t.th[j].pc, t.w)
    {
      ActPlaced(repaired, s.w, s.th[i], |s.th|, Hit(s.th, s.th[i].pc));
      if j != i {
        assert forall w :: !(Holds(w, repaired, s.th[i].pc) && Holds(w, repaired, s.th[j].pc));
        assert !(Holds(Inside, repaired, s.th[i].pc) && Holds(Inside, repaired, s.th[j].pc));
        assert !(Holds(Mutual, repaired, s.th[i].pc) && Holds(Mutual, repaired, s.th[j].pc));
        assert !(Holds(Queue, repaired, s.th[i].pc) && Holds(Queue, repaired, s.th[j].pc));
        ActOther(repaired, s.w, s.th[i], |s.th|, Hit(s.th, s.th[i].pc), s.th[j].pc);
      }
    }
  }

  lemma InitInv(repaired: bool, n: nat)
    ensures Inv(repaired, Init(n))
  {
  }

  lemma {:induction false} RunKeepsInv(repaired: bool, n: nat, moves: seq<nat>)
    ensures Inv(repaired, Run(repaired, Init(n), moves)) && |Run(repaired, Init(n), moves).th| == n
    decreases |moves|
  {
    hide Inv, Move, Act;
    if moves == [] {
      InitInv(repaired, n);
    } else {
      var rest := moves[..|moves| - 1];
      RunKeepsInv(repaired, n, rest);
      var p := Run(repaired, Init(n), rest);
      var i := moves[|moves| - 1];
      if i < n {
        MoveKeepsInv(repaired, p, i);
        MoveFrame(repaired, p, i);
      }
    }
  }

  // In every interleaving, as written or repaired, at most one thread is between thrMutexLock and
  // its own clear of m->lock, and the word says whether one is.
  lemma MutualExclusion(repaired: bool, n: nat, moves: seq<nat>)
    ensures
      var s := Run(repaired, Init(n), moves);
      && (forall i, j :: 0 <= i < |s.th| && 0 <= j < |s.th| && Owns(s.th[i].pc) && Owns(s.th[j].pc) ==> i == j)
      && (s.w.lock <==> exists i :: 0 <= i < |s.th| && Owns(s.th[i].pc))
  {
    RunKeepsInv(repaired, n, moves);
    var s := Run(repaired, Init(n), moves);
    hide Owns;
    assert Guards(Mutual, repaired, s);
    forall i, j | 0 <= i < |s.th| && 0 <= j < |s.th| && Owns(s.th[i].pc) && Owns(s.th[j].pc)
      ensures i == j
    {
      assert Holds(Mutual, repaired, s.th[i].pc) && Holds(Mutual, repaired, s.th[j].pc);
    }
    if s.w.lock {
      var k :| 0 <= k < |s.th| && Holds(Mutual, repaired, s.th[k].pc);
      assert Owns(s.th[k].pc);
    }
    if k :| 0 <= k < |s.th| && Owns(s.th[k].pc) {
      assert Holds(Mutual, repaired, s.th[k].pc);
    }
  }

  // ---- wake-ups

  // A broadcast that has yet to look at slot j is under way.
  ghost predicate Pending(s: State, j: nat) {
    exists i :: 0 <= i < |s.th| && Reaches(s.th[i].pc, j)
  }

  predicate Reaches(pc: Pc, j: nat) {
    pc.Wake? && pc.i <= j
  }

  // A sleeping thread in slot j will still be woken.
  ghost predicate Awaited(s: State, j: nat) {
    j < |s.th| && s.th[j].asleep ==> s.w.lock || Pending(s, j)
  }

  ghost predicate Sleeps(s: State) {
    forall j :: 0 <= j < |s.th| && s.th[j].asleep ==> s.th[j].pc.Asleep? && s.th[j].waits
  }

  lemma MoveAwaits(s: State, i: nat, j: nat)
    requires i < |s.th| && j >= 1 && Inv(true, s) && Sleeps(s) && Awaited(s, j)
    ensures Awaited(Move(true, s, i), j)
  {
    var t := Move(true, s, i);
    if j < |t.th| && t.th[j].asleep && !t.w.lock {
      assert Placed(true, s.th[i].pc, s.w);
      if s.w.lock {
        assert Reaches(t.th[i].pc, j);
      } else if Reaches(s.th[i].pc, j) {
        assert Reaches(t.th[i].pc, j);
      } else {
        var k :| 0 <= k < |s.th| && Reaches(s.th[k].pc, j);
        assert Reaches(t.th[k].pc, j);
      }
    }
  }

  lemma MoveSleeps(s: State, i: nat)
    requires i < |s.th| && Inv(true, s) && Sleeps(s)
    ensures Sleeps(Move(true, s, i))
  {
    assert Placed(true, s.th[i].pc, s.w);
  }

  lemma {:induction false} RunAwaits(n: nat, moves: seq<nat>, j: nat)
    requires j >= 1
    ensures
      var s := Run(true, Init(n), moves);
      && Sleeps(s)
      && Awaited(s, j)
    decreases |moves|
  {
    if moves != [] {
      var rest := moves[..|moves| - 1];
      RunAwaits(n, rest, j);
      RunKeepsInv(true, n, rest);
      var p := Run(true, Init(n), rest);
      var i := moves[|moves| - 1];
      if i < n {
        hide Inv, Sleeps, Awaited, Act, Move;
        MoveAwaits(p, i, j);
        MoveSleeps(p, i);
      }
    }
  }

  // No run leaves a sleeper in a slot from `first` on with the mutex free and no broadcast on
  // its way.
  ghost predicate NoLostWakeup(repaired: bool, n: nat, first: nat) {
    forall moves: seq<nat>, j: nat | first <= j < n :: Awaited(Run(repaired, Init(n), moves), j)
  }

  ghost predicate Reached(repaired: bool, n: nat, s: State) {
    exists moves :: Run(repaired, Init(n), moves) == s
  }

  // The first slots as given, every other thread idle.
  function Front(n: nat, w: Words, f: seq<Thread>): State
    requires |f| <= n
  {
    State(w, f + Init(n - |f|).th)
  }

  lemma StartFront(repaired: bool, n: nat, k: nat)
    requires k <= n
    ensures Reached(repaired, n, Front(n, Words(false, false, false), Init(k).th))
  {
    assert Run(repaired, Init(n), []) == Init(n) == Front(n, Words(false, false, false), Init(k).th);
  }

  lemma ReachedNext(repaired: bool, n: nat, s: State, i: nat)
    requires Reached(repaired, n, s) && i < |s.th|
    ensures Reached(repaired, n, Move(repaired, s, i))
  {
    hide Move;
    var moves :| Run(repaired, Init(n), moves) == s;
    assert (moves + [i])[..|moves|] == moves;
    assert Run(repaired, Init(n), moves + [i]) == Move(repaired, s, i);
  }

  // One operation of thread i within the first slots leads to w2 and g.
  lemma Next(repaired: bool, n: nat, w: Words, f: seq<Thread>, i: nat, w2: Words, g: seq<Thread>)
    requires i < |f| == |g| && |f| <= n && Reached(repaired, n, Front(n, w, f))
    requires !f[i].pc.Wake? || f[i].pc.i < |f| || f[i].pc.i >= n
    requires
      var t := f[i];
      var (w', t') := Act(repaired, w, t, n, Hit(f, t.pc));
      w2 == w' && g == Roused(f, t.pc)[i := t']
    ensures Reached(repaired, n, Front(n, w2, g))
  {
    hide Act, Reached;
    var t := f[i];
    var s := Front(n, w, f);
    assert Move(repaired, s, i).th == Front(n, w2, g).th;
    ReachedNext(repaired, n, s, i);
  }

  function At(pc: Pc): Thread {
    Thread(pc, false, false)
  }

  // Thread i takes the free mutex and returns from thrMutexLock.
  lemma Locks(repaired: bool, n: nat, f: seq<Thread>, i: nat)
    requires i < |f| <= n && f[i] == At(Idle) && Reached(repaired, n, Front(n, Words(false, false, false), f))
    ensures Reached(repaired, n, Front(n, Words(false, true, false), f[i := At(Critical)]))
  {
    hide Reached, Front;
    Next(repaired, n, Words(false, false, false), f, i, Words(false, false, false), f[i := At(LockSpin)]);
    Next(repaired, n, Words(false, false, false), f[i := At(LockSpin)], i,
         Words(true, false, false), f[i := At(LockTest)]);
    Next(repaired, n, Words(true, false, false), f[i := At(LockTest)], i, Words(true, false, false), f[i := At(Take)]);
    Next(repaired, n, Words(true, false, false), f[i := At(Take)], i, Words(true, true, false), f[i := At(LockDone)]);
    Next(repaired, n, Words(true, true, false), f[i := At(LockDone)], i,
         Words(false, true, false), f[i := At(Critical)]);
  }

  // Thread i finds the mutex taken and comes to hold m->lk, about to take thrque_lock.
  lemma FindsTaken(repaired: bool, n: nat, queue: bool, f: seq<Thread>, i: nat)
    requires i < |f| <= n && f[i] == At(Idle) && Reached(repaired, n, Front(n, Words(false, true, queue), f))
    ensures Reached(repaired, n, Front(n, Words(true, true, queue), f[i := At(WaitSpin)]))
  {
    hide Reached, Front;
    Next(repaired, n, Words(false, true, queue), f, i, Words(false, true, queue), f[i := At(LockSpin)]);
    Next(repaired, n, Words(false, true, queue), f[i := At(LockSpin)], i,
         Words(true, true, queue), f[i := At(LockTest)]);
    Next(repaired, n, Words(true, true, queue), f[i := At(LockTest)], i,
         Words(true, true, queue), f[i := At(WaitSpin)]);
  }

  // The owner i clears the mutex and is about to broadcast.
  lemma Clears(repaired: bool, n: nat, queue: bool, f: seq<Thread>, i: nat)
    requires i < |f| <= n && f[i] == At(Critical) && Reached(repaired, n, Front(n, Words(false, true, queue), f))
    ensures Reached(repaired, n, Front(n, Words(true, false, queue), f[i := At(Wake(1, Status))]))
  {
    hide Reached, Front;
    Next(repaired, n, Words(false, true, queue), f, i, Words(false, true, queue), f[i := At(UnlockSpin)]);
    Next(repaired, n, Words(false, true, queue), f[i := At(UnlockSpin)], i,
         Words(true, true, queue), f[i := At(UnlockClear)]);
    Next(repaired, n, Words(true, true, queue), f[i := At(UnlockClear)], i,
         Words(true, false, queue), f[i := At(Wake(1, Status))]);
  }

  // The thread in slot 1 locks, that in slot 0 waits, slot 1 unlocks: the broadcast starts above
  // slot 0.
  lemma SlotZeroSleeps(n: nat)
    requires n >= 2
    ensures Reached(true, n, Front(n, Words(true, false, false), [Thread(Asleep, true, true), At(Wake(1, Status))]))
  {
    hide Reached, Front;
    StartFront(true, n, 2);
    var z, c := At(Idle), At(Critical);
    assert Init(2).th == [z, z];
    Locks(true, n, [z, z], 1);
    assert [z, z][1 := c] == [z, c];
    FindsTaken(true, n, false, [z, c], 0);
    assert [z, c][0 := At(WaitSpin)] == [At(WaitSpin), c];
    Next(true, n, Words(true, true, false), [At(WaitSpin), c], 0, Words(true, true, true), [At(WaitRelease), c]);
    var slept := Thread(Asleep, true, true);
    Next(true, n, Words(true, true, true), [At(WaitRelease), c], 0, Words(false, true, false), [slept, c]);
    Clears(true, n, false, [slept, c], 1);
    assert [slept, c][1 := At(Wake(1, Status))] == [slept, At(Wake(1, Status))];
  }

  lemma SlotZeroIsLost(n: nat)
    requires n >= 2
    ensures !NoLostWakeup(true, n, 0)
  {
    SlotZeroSleeps(n);
    LostHere(true, n, Words(true, false, false), [Thread(Asleep, true, true), At(Wake(1, Status))], 0, 0);
  }

  lemma LostHere(repaired: bool, n: nat, w: Words, f: seq<Thread>, first: nat, j: nat)
    requires first <= j < |f| <= n && Reached(repaired, n, Front(n, w, f))
    requires f[j].asleep && !w.lock && forall i :: 0 <= i < |f| ==> !Reaches(f[i].pc, j)
    ensures !NoLostWakeup(repaired, n, first)
  {
    var moves :| Run(repaired, Init(n), moves) == Front(n, w, f);
    assert !Awaited(Front(n, w, f), j);
  }

  // As written, a thread that finds the mutex taken comes to have named its condition and not yet
  // set its status.
  lemma Marks(n: nat, f: seq<Thread>, i: nat)
    requires i < |f| <= n && f[i] == At(WaitSpin) && Reached(false, n, Front(n, Words(true, true, false), f))
    ensures Reached(false, n, Front(n, Words(false, true, true), f[i := Thread(WaitSleep, false, true)]))
  {
    hide Reached, Front;
    Next(false, n, Words(true, true, false), f, i, Words(true, true, true), f[i := At(WaitRelease)]);
    Next(false, n, Words(true, true, true), f[i := At(WaitRelease)], i, Words(false, true, true), f[i := At(WaitMark)]);
    Next(false, n, Words(false, true, true), f[i := At(WaitMark)], i,
         Words(false, true, true), f[i := Thread(WaitSleep, false, true)]);
  }

  // A broadcast goes past slots whose threads are not asleep.
  lemma {:induction false} PassesBy(repaired: bool, n: nat, w: Words, f: seq<Thread>, i: nat, k: nat, m: nat)
    requires i < |f| && k <= m <= n && f[i] == At(Wake(k, Status)) && |f| <= n
    requires forall j :: k <= j < m && j < |f| ==> !f[j].asleep
    requires Reached(repaired, n, Front(n, w, f))
    ensures Reached(repaired, n, Front(n, w, f[i := At(Wake(m, Status))]))
    decreases m - k
  {
    hide Reached;
    if k == m {
      assert f[i := At(Wake(m, Status))] == f;
    } else {
      var g := f[i := At(Wake(k + 1, Status))];
      var s := Front(n, w, f);
      assert !s.th[k].asleep;
      assert Move(repaired, s, i).th == Front(n, w, g).th;
      ReachedNext(repaired, n, s, i);
      PassesBy(repaired, n, w, g, i, k + 1, m);
      assert g[i := At(Wake(m, Status))] == f[i := At(Wake(m, Status))];
    }
  }

  // As written, slot 0 owns the mutex and slot j is on its way to sleep, between naming its
  // condition and setting its status: the broadcast passes it by, and it sleeps.
  lemma AsWrittenSleeps(n: nat, j: nat) returns (f: seq<Thread>)
    requires 1 <= j < n
    ensures f == Init(j + 1).th[0 := At(Wake(j + 1, Status))][j := Thread(Asleep, true, true)]
    ensures Reached(false, n, Front(n, Words(true, false, true), f))
  {
    hide Reached, Front;
    StartFront(false, n, j + 1);
    var z, c := At(Idle), At(Critical);
    var marked, slept := Thread(WaitSleep, false, true), Thread(Asleep, true, true);
    f := Init(j + 1).th;
    Locks(false, n, f, 0);
    f := f[0 := c];
    FindsTaken(false, n, false, f, j);
    Marks(n, f[j := At(WaitSpin)], j);
    assert f[j := At(WaitSpin)][j := marked] == f[j := marked];
    Clears(false, n, true, f[j := marked], 0);
    var g := f[j := marked][0 := At(Wake(1, Status))];
    PassesBy(false, n, Words(true, false, true), g, 0, 1, j + 1);
    g := g[0 := At(Wake(j + 1, Status))];
    f := g[j := slept];
    Next(false, n, Words(true, false, true), g, j, Words(true, false, true), f);
  }

  lemma AsWrittenLoses(n: nat, j: nat)
    requires 1 <= j < n
    ensures !NoLostWakeup(false, n, j)
  {
    hide Reached, Front, NoLostWakeup;
    var f := AsWrittenSleeps(n, j);
    LostHere(false, n, Words(true, false, true), f, j, j);
  }

  // A thread alone never finds the mutex taken.
  predicate Waits(pc: Pc) {
    || pc.WaitSpin? || pc.WaitRelease? || pc.WaitMark? || pc.WaitSleep? || pc.Asleep?
    || pc.WaitClear? || pc.WaitUnlockQueue? || pc.WaitRelock?
  }

  lemma SoloMove(repaired: bool, s: State)
    requires |s.th| == 1 && Inv(repaired, s) && !Waits(s.th[0].pc) && !s.th[0].asleep
    ensures
      var t := Move(repaired, s, 0);
      |t.th| == 1 && !Waits(t.th[0].pc) && !t.th[0].asleep
  {
    assert Guards(Mutual, repaired, s);
    assert s.w.lock ==> Owns(s.th[0].pc);
  }

  lemma {:induction false} SoloNeverWaits(repaired: bool, moves: seq<nat>)
    ensures
      var s := Run(repaired, Init(1), moves);
      |s.th| == 1 && !Waits(s.th[0].pc) && !s.th[0].asleep
    decreases |moves|
  {
    if moves != [] {
      hide Inv, Move, Waits;
      var rest := moves[..|moves| - 1];
      SoloNeverWaits(repaired, rest);
      RunKeepsInv(repaired, 1, rest);
      SoloMove(repaired, Run(repaired, Init(1), rest));
    }
  }

  // Counting the sleepers from slot `first` on, no wake-up is lost exactly when there are no two
  // threads or no such slot, or release and sleep are one step and slot 0 does not count.
  lemma NoWakeupIsLost(repaired: bool, n: nat, first: nat)
    ensures NoLostWakeup(repaired, n, first) <==> n <= 1 || first >= n || (repaired && first >= 1)
  {
    if n > 1 && first < n && first == 0 {
      if repaired {
        SlotZeroIsLost(n);
      } else {
        AsWrittenLoses(n, 1);
        var moves: seq<nat>, j: nat :| 1 <= j < n && !Awaited(Run(false, Init(n), moves), j);
      }
    } else if n > 1 && first < n && !repaired {
      AsWrittenLoses(n, first);
    } else {
      forall moves: seq<nat>, j: nat | first <= j < n
        ensures Awaited(Run(repaired, Init(n), moves), j)
      {
        if n == 1 {
          SoloNeverWaits(repaired, moves);
        } else {
          RunAwaits(n, moves, j);
        }
      }
    }
  }

  // ---- deadlock

  // Some thread is under way and none of those can move.
  ghost predicate Stuck(repaired: bool, s: State) {
    && (exists i :: 0 <= i < |s.th| && !s.th[i].pc.Idle?)
    && (forall i :: 0 <= i < |s.th| && !s.th[i].pc.Idle? ==> Move(repaired, s, i) == s)
  }

  predicate Blocked(w: Words, t: Thread) {
    || ((t.pc.LockSpin? || t.pc.WaitRelock? || t.pc.UnlockSpin?) && w.lk)
    || (t.pc.WaitSpin? && w.queue)
    || (t.pc.Asleep? && t.asleep)
  }

  // Where a thread can be that cannot move.
  lemma CannotMove(repaired: bool, s: State, i: nat)
    requires i < |s.th|
    ensures Move(repaired, s, i) == s <==> Blocked(s.w, s.th[i])
  {
    var t := s.th[i];
    var m := Move(repaired, s, i);
    if m == s {
      assert m.th[i].pc == t.pc;
    } else {
      assert m.th == s.th ==> m.w != s.w;
    }
  }

  // If all that are under way are blocked, they are asleep and the mutex is free.
  lemma StuckAsleep(s: State)
    requires Inv(true, s)
    requires forall i :: 0 <= i < |s.th| && !s.th[i].pc.Idle? ==> Blocked(s.w, s.th[i])
    ensures !s.w.lock
    ensures forall i :: 0 <= i < |s.th| && !s.th[i].pc.Idle? ==> s.th[i].pc.Asleep? && s.th[i].asleep
  {
    assert Guards(Inside, true, s) && Guards(Mutual, true, s) && Guards(Queue, true, s);
    assert !s.w.queue;
    assert !s.w.lk;
  }

  // Repaired, the threads are stuck exactly when the one in slot 0, which no broadcast reaches,
  // sleeps and every other is idle; so threads in slots from 1 on are never stuck.
  lemma OnlySlotZeroIsStuck(n: nat, moves: seq<nat>)
    ensures
      var s := Run(true, Init(n), moves);
      Stuck(true, s) <==>
        && |s.th| > 0 && s.th[0].asleep
        && (forall j :: 1 <= j < |s.th| ==> s.th[j].pc.Idle?)
  {
    var s := Run(true, Init(n), moves);
    RunKeepsInv(true, n, moves);
    RunAwaits(n, moves, 1);
    if Stuck(true, s) {
      forall i | 0 <= i < |s.th| && !s.th[i].pc.Idle?
        ensures Blocked(s.w, s.th[i])
      {
        CannotMove(true, s, i);
      }
      StuckAsleep(s);
      var i :| 0 <= i < |s.th| && !s.th[i].pc.Idle?;
      forall j | 1 <= j < |s.th| && !s.th[j].pc.Idle?
        ensures false
      {
        RunAwaits(n, moves, j);
        assert false;
      }
    } else if |s.th| > 0 && s.th[0].asleep && forall j :: 1 <= j < |s.th| ==> s.th[j].pc.Idle? {
      CannotMove(true, s, 0);
      assert !s.th[0].pc.Idle?;
    }
  }

  // The broadcast of the thread in slot i, past the slots of f, ends in thrMutexUnlock's return.
  lemma Returns(repaired: bool, n: nat, w: Words, f: seq<Thread>, i: nat, k: nat)
    requires i < |f| <= k <= n && f[i] == At(Wake(k, Status)) && Reached(repaired, n, Front(n, w, f))
    ensures Reached(repaired, n, Front(n, w.(lk := false), f[i := At(Idle)]))
  {
    hide Reached, Front;
    PassesBy(repaired, n, w, f, i, k, n);
    var g := f[i := At(Wake(n, Status))];
    Next(repaired, n, w, g, i, w, f[i := At(UnlockDone)]);
    Next(repaired, n, w, f[i := At(UnlockDone)], i, w.(lk := false), f[i := At(Idle)]);
  }

  lemma SleeperIsStuck(repaired: bool, n: nat, w: Words, f: seq<Thread>, j: nat)
    requires j < |f| <= n && f[j] == Thread(Asleep, true, true)
    requires forall i :: 0 <= i < |f| && i != j ==> f[i].pc.Idle?
    requires Reached(repaired, n, Front(n, w, f))
    ensures exists moves :: Stuck(repaired, Run(repaired, Init(n), moves))
  {
    var s := Front(n, w, f);
    assert !s.th[j].pc.Idle?;
    CannotMove(repaired, s, j);
    assert Stuck(repaired, s);
    hide Stuck, Front;
    var moves :| Run(repaired, Init(n), moves) == s;
    assert Stuck(repaired, Run(repaired, Init(n), moves));
  }

  // A lone thread is never stuck.
  lemma SoloMoves(repaired: bool, moves: seq<nat>)
    ensures !Stuck(repaired, Run(repaired, Init(1), moves))
  {
    var s := Run(repaired, Init(1), moves);
    SoloNeverWaits(repaired, moves);
    RunKeepsInv(repaired, 1, moves);
    CannotMove(repaired, s, 0);
    assert Guards(Inside, repaired, s);
    assert s.w.lk ==> Inner(s.th[0].pc);
  }

  // Two threads can get stuck, as written and repaired, and no fewer: the sleeper that was passed
  // by is the only one under way.
  lemma StuckFromTwo(repaired: bool, n: nat)
    ensures (exists moves :: Stuck(repaired, Run(repaired, Init(n), moves))) <==> n >= 2
  {
    if n >= 2 {
      hide Reached, Front, Stuck;
      if repaired {
        SlotZeroSleeps(n);
        var f := [Thread(Asleep, true, true), At(Wake(1, Status))];
        PassesBy(true, n, Words(true, false, false), f, 1, 1, 2);
        f := f[1 := At(Wake(2, Status))];
        Returns(true, n, Words(true, false, false), f, 1, 2);
        SleeperIsStuck(true, n, Words(false, false, false), f[1 := At(Idle)], 0);
      } else {
        var f := AsWrittenSleeps(n, 1);
        Returns(false, n, Words(true, false, true), f, 0, 2);
        SleeperIsStuck(false, n, Words(false, false, true), f[0 := At(Idle)], 1);
      }
    } else if n == 1 {
      forall moves ensures !Stuck(repaired, Run(repaired, Init(n), moves)) {
        SoloMoves(repaired, moves);
      }
    } else {
      forall moves ensures !Stuck(repaired, Run(repaired, Init(n), moves)) {
        RunKeepsInv(repaired, n, moves);
      }
    }
  }

  // No thread at all can move, not even into thrMutexLock.
  ghost predicate Dead(repaired: bool, s: State) {
    s.th != [] && forall i :: 0 <= i < |s.th| ==> Move(repaired, s, i) == s
  }

  // The threads behind those of f come to spin on m->lk.
  lemma {:induction false} AllCall(repaired: bool, n: nat, w: Words, f: seq<Thread>) returns (g: seq<Thread>)
    requires |f| <= n && Reached(repaired, n, Front(n, w, f))
    ensures |g| == n && g[..|f|] == f && Reached(repaired, n, Front(n, w, g))
    ensures forall i :: |f| <= i < n ==> g[i] == At(LockSpin)
    decreases n - |f|
  {
    hide Reached;
    if |f| == n {
      g := f;
      assert g[..|f|] == f;
    } else {
      var e := f + [At(Idle)];
      assert Front(n, w, e).th == Front(n, w, f).th;
      var h := f + [At(LockSpin)];
      Next(repaired, n, w, e, |f|, w, h);
      g := AllCall(repaired, n, w, h);
      assert g[..|f|] == h[..|f|] == f;
    }
  }

  // As written, a sleeper keeps thrque_lock, so a third thread that finds the mutex taken spins on
  // it holding m->lk, and the owner spins on m->lk; any others soon do too.
  lemma AsWrittenDies(n: nat)
    requires n >= 3
    ensures exists moves :: Dead(false, Run(false, Init(n), moves))
  {
    hide Reached, Front, Dead;
    StartFront(false, n, 3);
    var z, c := At(Idle), At(Critical);
    assert Init(3).th == [z, z, z];
    Locks(false, n, [z, z, z], 0);
    assert [z, z, z][0 := c] == [c, z, z];
    FindsTaken(false, n, false, [c, z, z], 1);
    var marked, slept := Thread(WaitSleep, false, true), Thread(Asleep, true, true);
    assert [c, z, z][1 := At(WaitSpin)] == [c, At(WaitSpin), z];
    Marks(n, [c, At(WaitSpin), z], 1);
    assert [c, At(WaitSpin), z][1 := marked] == [c, marked, z];
    Next(false, n, Words(false, true, true), [c, marked, z], 1, Words(false, true, true), [c, slept, z]);
    FindsTaken(false, n, true, [c, slept, z], 2);
    assert [c, slept, z][2 := At(WaitSpin)] == [c, slept, At(WaitSpin)];
    var f := [At(UnlockSpin), slept, At(WaitSpin)];
    Next(false, n, Words(true, true, true), [c, slept, At(WaitSpin)], 0, Words(true, true, true), f);
    var g := AllCall(false, n, Words(true, true, true), f);
    DeadHere(n, g);
    DeadReached(n, Front(n, Words(true, true, true), g));
  }

  lemma DeadHere(n: nat, g: seq<Thread>)
    requires |g| == n >= 3 && g[..3] == [At(UnlockSpin), Thread(Asleep, true, true), At(WaitSpin)]
    requires forall i :: 3 <= i < n ==> g[i] == At(LockSpin)
    ensures Dead(false, Front(n, Words(true, true, true), g))
  {
    var s := Front(n, Words(true, true, true), g);
    hide Move;
    assert s.th == g && g[0] == g[..3][0] && g[1] == g[..3][1] && g[2] == g[..3][2];
    forall i | 0 <= i < n ensures Move(false, s, i) == s {
      CannotMove(false, s, i);
    }
  }

  lemma DeadReached(n: nat, s: State)
    requires Reached(false, n, s) && Dead(false, s)
    ensures exists moves :: Dead(false, Run(false, Init(n), moves))
  {
    hide Dead;
    var moves :| Run(false, Init(n), moves) == s;
    assert Dead(false, Run(false, Init(n), moves));
  }

  // Where a blocked thread is that holds a word.
  lemma BlockedHolder(w: Words, t: Thread)
    requires Blocked(w, t)
    ensures Inner(t.pc) ==> t.pc.WaitSpin? && w.queue
    ensures Queued(false, t.pc) ==> t.pc.Asleep?
    ensures Owns(t.pc) ==> t.pc.UnlockSpin?
    ensures !w.lk ==> t.pc.WaitSpin? || t.pc.Asleep?
  {
  }

  // As written, all threads blocked are three at least: one spinning on thrque_lock inside m->lk,
  // one asleep with thrque_lock, and the owner.
  lemma DeadNeedsThree(s: State)
    requires Inv(false, s) && |s.th| >= 2 && forall i :: 0 <= i < |s.th| ==> Blocked(s.w, s.th[i])
    ensures |s.th| >= 3
  {
    TwoAsleep(s);
    assert Guards(Inside, false, s) && Guards(Mutual, false, s) && Guards(Queue, false, s);
    hide Blocked, Inner, Owns, Queued;
    var k :| 0 <= k < |s.th| && Holds(Inside, false, s.th[k].pc);
    BlockedHolder(s.w, s.th[k]);
    assert Placed(false, s.th[k].pc, s.w);
    var q :| 0 <= q < |s.th| && Holds(Queue, false, s.th[q].pc);
    BlockedHolder(s.w, s.th[q]);
    var o :| 0 <= o < |s.th| && Holds(Mutual, false, s.th[o].pc);
    BlockedHolder(s.w, s.th[o]);
    assert k != q && q != o && k != o;
  }

  // Two blocked threads cannot both be asleep with thrque_lock.
  lemma TwoAsleep(s: State)
    requires Inv(false, s) && |s.th| >= 2 && Blocked(s.w, s.th[0]) && Blocked(s.w, s.th[1])
    ensures s.w.lk
  {
    assert Guards(Queue, false, s) && Placed(false, s.th[0].pc, s.w) && Placed(false, s.th[1].pc, s.w);
    assert !(Holds(Queue, false, s.th[0].pc) && Holds(Queue, false, s.th[1].pc));
  }

  lemma NotDead(repaired: bool, n: nat, moves: seq<nat>)
    requires repaired || n < 3
    ensures !Dead(repaired, Run(repaired, Init(n), moves))
  {
    var s := Run(repaired, Init(n), moves);
    RunKeepsInv(repaired, n, moves);
    if Dead(repaired, s) {
      hide Inv, Move;
      forall i | 0 <= i < |s.th| ensures Blocked(s.w, s.th[i]) {
        CannotMove(repaired, s, i);
      }
      assert forall i :: 0 <= i < |s.th| ==> !s.th[i].pc.Idle?;
      assert !s.th[0].pc.Idle? && Stuck(repaired, s) && (n > 1 ==> !s.th[1].pc.Idle?);
      if n == 1 {
        SoloMoves(repaired, moves);
      } else if repaired {
        OnlySlotZeroIsStuck(n, moves);
      } else {
        DeadNeedsThree(s);
      }
    }
  }

  // The threads can all come to a standstill exactly as written and with three of them or more.
  lemma DeadFromThreeAsWritten(repaired: bool, n: nat)
    ensures (exists moves :: Dead(repaired, Run(repaired, Init(n), moves))) <==> !repaired && n >= 3
  {
    hide Dead;
    if !repaired && n >= 3 {
      AsWrittenDies(n);
    } else {
      forall moves ensures !Dead(repaired, Run(repaired, Init(n), moves)) {
        NotDead(repaired, n, moves);
      }
    }
  }
}
