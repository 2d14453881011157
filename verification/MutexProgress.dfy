// That a call of thrMutexLock comes to an end with the mutex, and one of thrMutexUnlock with the
// mutex given back, in terms of where the thread is and of the lock words.
module MutexProgress {
  import opened Mutex

  // Called, and yet to return.
  predicate Locking(pc: Pc) {
    pc.LockSpin? || pc.LockTest? || Waits(pc) || pc.Take? || pc.LockDone?
  }

  predicate Unlocking(pc: Pc) {
    pc.UnlockSpin? || pc.UnlockClear? || pc.Wake? || pc.UnlockDone?
  }

  // Where thread i is, idle when there is none.
  function Place(s: State, i: nat): Pc {
    if i < |s.th| then s.th[i].pc else Idle
  }

  function Reach(repaired: bool, n: nat, moves: seq<nat>): State {
    Run(repaired, Init(n), moves)
  }

  // Thread i has returned from thrMutexLock with the mutex.
  predicate Owned(s: State, i: nat) {
    Place(s, i).Critical? && s.w.lock
  }

  // ---- no call returns without having done its work

  // From where and to where the thread that moves can go.
  predicate Goes(before: Pc, after: Pc, w: Words) {
    && (Locking(before) ==> Locking(after) || (after.Critical? && w.lock))
    && (Unlocking(before) ==> Unlocking(after) || (after.Idle? && !w.lock && !w.lk))
    && (before.Critical? ==> Unlocking(after))
    && (before.Idle? ==> Locking(after))
  }

  lemma ActGoes(repaired: bool, w: Words, t: Thread, n: nat, hit: bool)
    requires Placed(repaired, t.pc, w)
    ensures var (w', t') := Act(repaired, w, t, n, hit); Goes(t.pc, t'.pc, w')
  {
  }

  lemma MoveGoes(repaired: bool, s: State, i: nat)
    requires Inv(repaired, s) && i < |s.th|
    ensures Goes(Place(s, i), Place(Move(repaired, s, i), i), Move(repaired, s, i).w)
  {
    hide Act, Goes, Placed;
    ActGoes(repaired, s.w, s.th[i], |s.th|, Hit(s.th, s.th[i].pc));
  }

  // In every interleaving, as written or repaired, each move of a thread in thrMutexLock leaves it
  // there or returns it with the mutex taken, each move in thrMutexUnlock leaves it there or returns
  // it with the mutex and m->lk free, and the moves of others leave it where it is.
  lemma CallsDoTheirWork(repaired: bool, n: nat, moves: seq<nat>, who: nat, i: nat)
    requires who < n && i < n
    ensures
      var s, t := Reach(repaired, n, moves), Reach(repaired, n, moves + [who]);
      if i == who then Goes(Place(s, i), Place(t, i), t.w) else Place(t, i) == Place(s, i)
  {
    RunKeepsInv(repaired, n, moves);
    var s := Reach(repaired, n, moves);
    assert (moves + [who])[..|moves|] == moves;
    hide Act, Inv, Goes, Move;
    MoveGoes(repaired, s, who);
    MoveFrame(repaired, s, who);
  }

  // Only a thread in thrCondWait has the mutex as its cv or is asleep.
  predicate Named(t: Thread) {
    (t.waits ==> t.pc.WaitSleep? || t.pc.Asleep? || t.pc.WaitClear?) && (t.asleep ==> t.pc.Asleep?)
  }

  lemma ActNamed(repaired: bool, w: Words, t: Thread, n: nat, hit: bool)
    requires Named(t)
    ensures var (w', t') := Act(repaired, w, t, n, hit); Named(t')
  {
  }

  lemma {:induction false} RunNamed(repaired: bool, n: nat, moves: seq<nat>)
    ensures
      var s := Reach(repaired, n, moves);
      |s.th| == n && forall i :: 0 <= i < n ==> Named(s.th[i])
    decreases |moves|
  {
    if moves != [] {
      var rest, who := moves[..|moves| - 1], moves[|moves| - 1];
      RunNamed(repaired, n, rest);
      RunKeepsInv(repaired, n, rest);
      hide Act, Inv;
      var s := Reach(repaired, n, rest);
      if who < n { ActNamed(repaired, s.w, s.th[who], n, Hit(s.th, s.th[who].pc)); }
    }
  }

  // So between two moments of a run at which thread i is in thrMutexLock and no longer, it has
  // held the mutex.
  lemma {:induction false} LockReturnsAsOwner(repaired: bool, n: nat, moves: seq<nat>, more: seq<nat>, i: nat)
    requires i < n && Locking(Place(Reach(repaired, n, moves), i))
    requires !Locking(Place(Reach(repaired, n, moves + more), i))
    ensures exists k :: 0 <= k <= |more| && Owned(Reach(repaired, n, moves + more[..k]), i)
    decreases |more|
  {
    assert moves + [] == moves;
    if more != [] {
      var last := |more| - 1;
      var rest, who := moves + more[..last], more[last];
      assert rest + [who] == moves + more;
      assert rest == (moves + more)[..|moves| + last];
      if Locking(Place(Reach(repaired, n, rest), i)) {
        if who < n { CallsDoTheirWork(repaired, n, rest, who, i); } else { NobodyMoves(repaired, n, rest, who); }
        assert more[..|more|] == more;
        assert Owned(Reach(repaired, n, moves + more[..|more|]), i);
      } else {
        LockReturnsAsOwner(repaired, n, moves, more[..last], i);
        var k :| 0 <= k <= last && Owned(Reach(repaired, n, moves + more[..last][..k]), i);
        assert more[..last][..k] == more[..k];
      }
    }
  }

  lemma NobodyMoves(repaired: bool, n: nat, moves: seq<nat>, who: nat)
    requires who >= n
    ensures Reach(repaired, n, moves + [who]) == Reach(repaired, n, moves)
  {
    RunKeepsInv(repaired, n, moves);
    assert (moves + [who])[..|moves|] == moves;
  }

  // ---- a thread alone gets the mutex when it is free

  function Times(i: nat, k: nat): seq<nat> {
    seq(k, _ => i)
  }

  // How many moves a thread that finds both words free is from returning with the mutex.
  function Distance(repaired: bool, pc: Pc): nat {
    match pc
    case LockDone => 1
    case Take => 2
    case LockTest => 3
    case LockSpin => 4
    case WaitRelock => 4
    case WaitUnlockQueue => 5
    case WaitClear => if repaired then 5 else 6
    case Asleep => if repaired then 6 else 7
    case _ => 0
  }

  // Thread t is on its way to the mutex, which is free for it.
  predicate OnItsWay(w: Words, t: Thread) {
    match t.pc
    case LockSpin => !w.lk && !w.lock
    case LockTest => !w.lock
    case Asleep => !w.lk && !w.lock && !t.asleep
    case WaitClear => !w.lk && !w.lock
    case WaitUnlockQueue => !w.lk && !w.lock
    case WaitRelock => !w.lk && !w.lock
    case Take => true
    case LockDone => w.lock
    case Critical => w.lock
    case _ => false
  }

  lemma ActOnItsWay(repaired: bool, w: Words, t: Thread, n: nat, hit: bool)
    requires OnItsWay(w, t) && !t.pc.Critical?
    ensures var (w', t') := Act(repaired, w, t, n, hit); OnItsWay(w', t')
  {
  }

  lemma ActNearer(repaired: bool, w: Words, t: Thread, n: nat, hit: bool)
    requires OnItsWay(w, t) && !t.pc.Critical? && (repaired ==> !OnlyWritten(t.pc))
    ensures
      var (w', t') := Act(repaired, w, t, n, hit);
      Distance(repaired, t'.pc) == Distance(repaired, t.pc) - 1
  {
  }

  lemma MoveNearer(repaired: bool, s: State, i: nat)
    requires i < |s.th| && Inv(repaired, s) && OnItsWay(s.w, s.th[i]) && !s.th[i].pc.Critical?
    ensures
      var t := Move(repaired, s, i);
      && i < |t.th| && OnItsWay(t.w, t.th[i])
      && Distance(repaired, t.th[i].pc) == Distance(repaired, s.th[i].pc) - 1
  {
    hide Act, OnItsWay, Distance, Guards;
    assert Placed(repaired, s.th[i].pc, s.w);
    ActOnItsWay(repaired, s.w, s.th[i], |s.th|, Hit(s.th, s.th[i].pc));
    ActNearer(repaired, s.w, s.th[i], |s.th|, Hit(s.th, s.th[i].pc));
  }

  lemma {:induction false} GetsThere(repaired: bool, n: nat, moves: seq<nat>, i: nat) returns (k: nat)
    requires i < n
    requires var s := Reach(repaired, n, moves); i < |s.th| && OnItsWay(s.w, s.th[i])
    ensures Owned(Reach(repaired, n, moves + Times(i, k)), i)
    decreases Distance(repaired, Place(Reach(repaired, n, moves), i))
  {
    var s := Reach(repaired, n, moves);
    if s.th[i].pc.Critical? {
      k := 0;
      assert moves + Times(i, 0) == moves;
    } else {
      hide Move, Inv, OnItsWay, Distance, Owned;
      RunKeepsInv(repaired, n, moves);
      MoveNearer(repaired, s, i);
      assert (moves + [i])[..|moves|] == moves;
      k := GetsThere(repaired, n, moves + [i], i);
      assert moves + [i] + Times(i, k) == moves + Times(i, k + 1);
      k := k + 1;
    }
  }

  // In every reachable state with m->lk and the mutex free, a thread in thrMutexLock that is not
  // asleep nor, as written, about to be gets the mutex by moving alone.
  lemma AloneGetsTheMutex(repaired: bool, n: nat, moves: seq<nat>, i: nat)
    requires
      var s := Reach(repaired, n, moves);
      && i < |s.th| == n && Locking(s.th[i].pc) && !s.th[i].asleep && !s.w.lk && !s.w.lock
      && (repaired || !(s.th[i].pc.WaitMark? || s.th[i].pc.WaitSleep?))
    ensures exists k: nat :: Owned(Reach(repaired, n, moves + Times(i, k)), i)
  {
    RunKeepsInv(repaired, n, moves);
    var s := Reach(repaired, n, moves);
    assert Placed(repaired, s.th[i].pc, s.w);
    var k := GetsThere(repaired, n, moves, i);
  }

  // ---- repaired, who can still get the mutex

  // How many moves at most until a thread inside m->lk lets go of it.
  function Remaining(pc: Pc, n: nat): nat {
    match pc
    case LockTest => 4
    case WaitSpin => 2
    case WaitRelease => 1
    case Take => 2
    case LockDone => 1
    case UnlockClear => 3 * n + 6
    case Wake(k, look) =>
      if k >= n then 2 else 3 * (n - k) + 2 + (match look case Status => 2 case Condition => 1 case Rouse => 0)
    case UnlockDone => 1
    case _ => 0
  }

  lemma ActReleases(w: Words, t: Thread, n: nat, hit: bool)
    requires Inner(t.pc) && (t.pc.WaitSpin? ==> !w.queue) && Freed(t.pc, w)
    ensures
      var (w', t') := Act(true, w, t, n, hit);
      if !w'.lk then Unlocking(t.pc) ==> !w'.lock
      else (Inner(t'.pc) && Remaining(t'.pc, n) < Remaining(t.pc, n) && (Unlocking(t.pc) ==> Unlocking(t'.pc)))
  {
  }

  // Only a thread inside m->lk is inside thrque_lock.
  lemma QueueFree(s: State, h: nat)
    requires Inv(true, s) && h < |s.th| && Inner(s.th[h].pc)
    ensures s.th[h].pc.WaitSpin? ==> !s.w.queue
  {
    assert Guards(Queue, true, s);
    if s.th[h].pc.WaitSpin? {
      forall q | 0 <= q < |s.th| && Holds(Queue, true, s.th[q].pc) ensures q == h { OneInside(s, h, q); }
    }
  }

  lemma OneInside(s: State, h: nat, q: nat)
    requires Inv(true, s) && h < |s.th| && q < |s.th| && Inner(s.th[h].pc) && Inner(s.th[q].pc)
    ensures q == h
  {
    assert Guards(Inside, true, s);
    assert Holds(Inside, true, s.th[h].pc) && Holds(Inside, true, s.th[q].pc);
  }

  lemma MoveReleases(s: State, h: nat)
    requires Inv(true, s) && h < |s.th| && Inner(s.th[h].pc)
    ensures
      var t := Move(true, s, h);
      && |t.th| == |s.th|
      && (if !t.w.lk then Unlocking(s.th[h].pc) ==> !t.w.lock
          else && Inner(t.th[h].pc) && Remaining(t.th[h].pc, |s.th|) < Remaining(s.th[h].pc, |s.th|)
               && (Unlocking(s.th[h].pc) ==> Unlocking(t.th[h].pc)))
  {
    hide Act, Inner, Remaining, Unlocking, Guards, Freed;
    QueueFree(s, h);
    assert Placed(true, s.th[h].pc, s.w);
    ActReleases(s.w, s.th[h], |s.th|, Hit(s.th, s.th[h].pc));
  }

  lemma ReachNext(repaired: bool, n: nat, moves: seq<nat>, i: nat)
    requires i < n
    ensures |Reach(repaired, n, moves).th| == n
    ensures Reach(repaired, n, moves + [i]) == Move(repaired, Reach(repaired, n, moves), i)
  {
    RunKeepsInv(repaired, n, moves);
    assert (moves + [i])[..|moves|] == moves;
  }

  // A thread inside m->lk comes to let go of it by moving alone, of the mutex too when unlocking.
  lemma {:induction false} Releases(n: nat, moves: seq<nat>, h: nat) returns (k: nat)
    requires h < n && Inner(Place(Reach(true, n, moves), h))
    ensures !Reach(true, n, moves + Times(h, k)).w.lk
    ensures Unlocking(Place(Reach(true, n, moves), h)) ==> !Reach(true, n, moves + Times(h, k)).w.lock
    decreases Remaining(Place(Reach(true, n, moves), h), n)
  {
    var s := Reach(true, n, moves);
    RunKeepsInv(true, n, moves);
    assert Inv(true, s);
    hide Move, Inv, Inner, Remaining, Unlocking, Reach;
    ReachNext(true, n, moves, h);
    MoveReleases(s, h);
    assert moves + [h] == moves + Times(h, 1);
    if Reach(true, n, moves + [h]).w.lk {
      k := Releases(n, moves + [h], h);
      assert moves + [h] + Times(h, k) == moves + Times(h, k + 1);
      k := k + 1;
    } else {
      k := 1;
    }
  }

  // The owner, outside m->lk, comes to unlock.
  lemma {:induction false} OwnerUnlocks(n: nat, moves: seq<nat>, o: nat) returns (k: nat)
    requires o < n && Owns(Place(Reach(true, n, moves), o)) && !Reach(true, n, moves).w.lk
    ensures
      var p := Place(Reach(true, n, moves + Times(o, k)), o);
      Inner(p) && Unlocking(p)
    decreases Place(Reach(true, n, moves), o).Critical?
  {
    var s := Reach(true, n, moves);
    RunKeepsInv(true, n, moves);
    assert Placed(true, s.th[o].pc, s.w);
    ReachNext(true, n, moves, o);
    hide Reach;
    assert moves + [o] == moves + Times(o, 1);
    if s.th[o].pc.Critical? {
      k := OwnerUnlocks(n, moves + [o], o);
      assert moves + [o] + Times(o, k) == moves + Times(o, k + 1);
      k := k + 1;
    } else {
      k := 1;
    }
  }

  // What a thread that does not move keeps.
  lemma {:induction false} Untouched(n: nat, moves: seq<nat>, more: seq<nat>, i: nat)
    requires i < n && i !in more
    ensures
      var s, t := Reach(true, n, moves), Reach(true, n, moves + more);
      && |s.th| == |t.th| == n && t.th[i].pc == s.th[i].pc && (t.th[i].asleep ==> s.th[i].asleep)
    decreases |more|
  {
    RunKeepsInv(true, n, moves);
    assert moves + [] == moves;
    if more != [] {
      var last := |more| - 1;
      Untouched(n, moves, more[..last], i);
      assert moves + more == moves + more[..last] + [more[last]];
      hide Reach, Act, Hit, Inv;
      if more[last] < n {
        ReachNext(true, n, moves + more[..last], more[last]);
      } else {
        NobodyMoves(true, n, moves + more[..last], more[last]);
      }
    }
  }

  // From every reachable state both words can be freed, without a move of a thread that holds
  // neither.
  lemma Frees(n: nat, moves: seq<nat>, i: nat) returns (more: seq<nat>)
    requires i < n
    ensures !Reach(true, n, moves + more).w.lk && !Reach(true, n, moves + more).w.lock
    ensures
      var p := Place(Reach(true, n, moves), i);
      !Inner(p) && !Owns(p) ==> i !in more
  {
    hide Inv, Inner, Owns, Unlocking;
    more := FreesInside(n, moves, i);
    var s := Reach(true, n, moves + more);
    if s.w.lock {
      var o := Holder(n, moves + more, Mutual);
      if i !in more { Untouched(n, moves, more, i); }
      var a := OwnerUnlocks(n, moves + more, o);
      var b := Releases(n, moves + more + Times(o, a), o);
      assert moves + more + Times(o, a) + Times(o, b) == moves + (more + Times(o, a + b));
      more := more + Times(o, a + b);
    }
  }

  lemma FreesInside(n: nat, moves: seq<nat>, i: nat) returns (more: seq<nat>)
    requires i < n
    ensures !Reach(true, n, moves + more).w.lk
    ensures !Inner(Place(Reach(true, n, moves), i)) ==> i !in more
  {
    more := [];
    assert moves + more == moves;
    if Reach(true, n, moves).w.lk {
      var h := Holder(n, moves, Inside);
      var k := Releases(n, moves, h);
      more := Times(h, k);
    }
  }

  // The thread a set word is held by.
  lemma Holder(n: nat, moves: seq<nat>, w: Word) returns (h: nat)
    requires Value(w, Reach(true, n, moves).w)
    ensures h < n && Holds(w, true, Place(Reach(true, n, moves), h))
  {
    RunKeepsInv(true, n, moves);
    var s := Reach(true, n, moves);
    assert Guards(w, true, s);
    var k :| 0 <= k < |s.th| && Holds(w, true, s.th[k].pc);
    h := k;
  }

  // Asleep, or bound to be: it has found the mutex taken, or is about to.
  predicate Sleepy(s: State, i: nat) {
    && i < |s.th|
    && (s.th[i].asleep || s.th[i].pc.WaitSpin? || s.th[i].pc.WaitRelease? || (s.th[i].pc.LockTest? && s.w.lock))
  }

  // A thread in thrMutexLock that is not in slot 0, or not asleep nor bound to be, can get the mutex.
  lemma GetsTheMutex(n: nat, moves: seq<nat>, i: nat) returns (more: seq<nat>)
    requires i < n && Locking(Place(Reach(true, n, moves), i))
    requires i >= 1 || !Sleepy(Reach(true, n, moves), i)
    ensures Owned(Reach(true, n, moves + more), i)
  {
    var s := Reach(true, n, moves);
    RunKeepsInv(true, n, moves);
    assert Inv(true, s);
    if OnItsWay(s.w, s.th[i]) {
      var k := GetsThere(true, n, moves, i);
      more := Times(i, k);
    } else {
      if i == 0 { NotHolding(s, i); }
      hide *;
      var free := Frees(n, moves, i);
      more := OnceFree(n, moves, free, i);
    }
  }

  lemma NotHolding(s: State, i: nat)
    requires Inv(true, s) && i < |s.th| && Locking(s.th[i].pc) && !Sleepy(s, i) && !OnItsWay(s.w, s.th[i])
    ensures !Inner(s.th[i].pc) && !Owns(s.th[i].pc)
  {
    assert Placed(true, s.th[i].pc, s.w);
  }

  // Once both words are free the thread has had the mutex, or is awake and gets it alone.
  lemma OnceFree(n: nat, moves: seq<nat>, free: seq<nat>, i: nat) returns (more: seq<nat>)
    requires i < n && Locking(Place(Reach(true, n, moves), i))
    requires i >= 1 || (!Sleepy(Reach(true, n, moves), i) && i !in free)
    requires !Reach(true, n, moves + free).w.lk && !Reach(true, n, moves + free).w.lock
    ensures Owned(Reach(true, n, moves + more), i)
  {
    hide Reach, Owned, Locking, Sleepy;
    if Locking(Place(Reach(true, n, moves + free), i)) {
      Awake(n, moves, free, i);
      AloneGetsTheMutex(true, n, moves + free, i);
      var k: nat :| Owned(Reach(true, n, moves + free + Times(i, k)), i);
      assert moves + free + Times(i, k) == moves + (free + Times(i, k));
      more := free + Times(i, k);
    } else {
      LockReturnsAsOwner(true, n, moves, free, i);
      var k :| 0 <= k <= |free| && Owned(Reach(true, n, moves + free[..k]), i);
      more := free[..k];
    }
  }

  lemma Awake(n: nat, moves: seq<nat>, free: seq<nat>, i: nat)
    requires i < n && (i >= 1 || (!Sleepy(Reach(true, n, moves), i) && i !in free))
    requires !Reach(true, n, moves + free).w.lk && !Reach(true, n, moves + free).w.lock
    ensures |Reach(true, n, moves + free).th| == n && !Reach(true, n, moves + free).th[i].asleep
  {
    var t := Reach(true, n, moves + free);
    RunKeepsInv(true, n, moves + free);
    if i >= 1 {
      RunAwaits(n, moves + free, i);
      assert forall j :: 0 <= j < |t.th| ==> Placed(true, t.th[j].pc, t.w);
    } else {
      RunKeepsInv(true, n, moves);
      Untouched(n, moves, free, i);
    }
  }

  // ---- repaired, slot 0

  // A broadcast begins above slot 0.
  ghost predicate AboveZero(s: State) {
    forall i :: 0 <= i < |s.th| && s.th[i].pc.Wake? ==> s.th[i].pc.i >= 1
  }

  lemma MoveAboveZero(s: State, i: nat)
    requires i < |s.th| && AboveZero(s)
    ensures AboveZero(Move(true, s, i))
  {
    MoveFrame(true, s, i);
  }

  lemma MoveSleepy(s: State, i: nat)
    requires Inv(true, s) && Sleeps(s) && AboveZero(s) && i < |s.th| && Sleepy(s, 0)
    ensures Sleepy(Move(true, s, i), 0)
  {
    assert Placed(true, s.th[i].pc, s.w);
    if i != 0 && s.th[0].pc.LockTest? && Inner(s.th[i].pc) { OneInside(s, 0, i); }
  }

  lemma {:induction false} StaysAboveZero(n: nat, moves: seq<nat>)
    ensures AboveZero(Reach(true, n, moves))
    decreases |moves|
  {
    if moves != [] {
      var rest, i := moves[..|moves| - 1], moves[|moves| - 1];
      StaysAboveZero(n, rest);
      hide Move, AboveZero;
      if i < |Reach(true, n, rest).th| { MoveAboveZero(Reach(true, n, rest), i); }
    }
  }

  lemma {:induction false} StaysSleepy(n: nat, moves: seq<nat>, more: seq<nat>)
    requires Sleepy(Reach(true, n, moves), 0)
    ensures Sleepy(Reach(true, n, moves + more), 0)
    decreases |more|
  {
    assert moves + [] == moves;
    if more != [] {
      var last := |more| - 1;
      var rest := moves + more[..last];
      StaysSleepy(n, moves, more[..last]);
      assert moves + more == rest + [more[last]];
      RunKeepsInv(true, n, rest);
      RunAwaits(n, rest, 1);
      StaysAboveZero(n, rest);
      hide Move, Inv, Sleeps, AboveZero, Sleepy;
      if more[last] < n {
        ReachNext(true, n, rest, more[last]);
        MoveSleepy(Reach(true, n, rest), more[last]);
      } else {
        NobodyMoves(true, n, rest, more[last]);
      }
    }
  }

  // Repaired, from every reachable state a thread in thrMutexLock can still come to return with the
  // mutex exactly when it is not the one in slot 0 asleep or bound to be.
  lemma NotLockedOut(n: nat, moves: seq<nat>, i: nat)
    requires i < n && Locking(Place(Reach(true, n, moves), i))
    ensures (exists more :: Owned(Reach(true, n, moves + more), i)) <==> i >= 1 || !Sleepy(Reach(true, n, moves), i)
  {
    if i >= 1 || !Sleepy(Reach(true, n, moves), i) {
      var more := GetsTheMutex(n, moves, i);
    } else {
      forall more ensures !Owned(Reach(true, n, moves + more), i) {
        StaysSleepy(n, moves, more);
        RunAwaits(n, moves + more, 1);
      }
    }
  }

  // As written and with three threads or more, threads come to be locked out for good.
  lemma LockedOutAsWritten(n: nat)
    requires n >= 3
    ensures exists moves: seq<nat>, i: nat | i < n && Locking(Place(Reach(false, n, moves), i)) ::
      forall more: seq<nat> :: !Owned(Reach(false, n, moves + more), i)
  {
    hide Dead;
    AsWrittenDies(n);
    var moves :| Dead(false, Run(false, Init(n), moves));
    var i := DeadWaiter(n, moves);
    forall more ensures !Owned(Reach(false, n, moves + more), i) {
      StaysDead(n, moves, more);
    }
  }

  lemma DeadWaiter(n: nat, moves: seq<nat>) returns (i: nat)
    requires n >= 2 && Dead(false, Reach(false, n, moves))
    ensures i < n && Locking(Place(Reach(false, n, moves), i))
  {
    var s := Reach(false, n, moves);
    RunKeepsInv(false, n, moves);
    hide Move;
    CannotMove(false, s, 0);
    CannotMove(false, s, 1);
    assert Guards(Mutual, false, s);
    assert !(Holds(Mutual, false, s.th[0].pc) && Holds(Mutual, false, s.th[1].pc));
    i := if Locking(s.th[0].pc) then 0 else 1;
  }

  lemma {:induction false} StaysDead(n: nat, moves: seq<nat>, more: seq<nat>)
    requires Dead(false, Reach(false, n, moves))
    ensures Reach(false, n, moves + more) == Reach(false, n, moves)
    decreases |more|
  {
    assert moves + [] == moves;
    if more != [] {
      var last := |more| - 1;
      StaysDead(n, moves, more[..last]);
      assert moves + more == moves + more[..last] + [more[last]];
      hide Move, Act;
      if more[last] < n {
        ReachNext(false, n, moves + more[..last], more[last]);
      } else {
        NobodyMoves(false, n, moves + more[..last], more[last]);
      }
    }
  }
}
