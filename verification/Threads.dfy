// The life of a thread: thrCreate, thrSched, thrYeild, thrExit, thrKill, the condition
// variables, and every run made of them.
module Threads {
  import opened Scheduler
  import Counting

  // last is the local t of thrSched, which keeps its value from one turn of the loop to the
  // next; cpu says whether a thread or the scheduler is running.
  datatype Sched = Sched(que: seq<Thread>, current: int, last: int, cpu: bool)

  datatype Event =
    | Create | Dispatch | Yield | Exit
    | Wait(cv: int) | Signal(cv: int) | Broadcast(cv: int)
    | Kill(tid: nat)

  // thrAlloc: the lowest slot never used or stopped.
  function Alloc(q: seq<Thread>, n: nat): (i: int)
    requires n <= |q|
    ensures i == NONE || (n <= i + |q| && 0 <= |q| - n <= i < |q|)
    decreases n
  {
    if n == 0 then NONE
    else if q[|q| - n].status == UNUSED || q[|q| - n].status == STOP then |q| - n
    else Alloc(q, n - 1)
  }

  predicate Sleeps(t: Thread, cv: int) {
    t.status == SLEEPING && t.cv == cv
  }

  // thrCondSignal from slot i on; its caller starts at slot 1.
  function WakeOne(q: seq<Thread>, cv: int, i: nat): (r: seq<Thread>)
    ensures |r| == |q|
    decreases |q| - i
  {
    if i >= |q| then q
    else if Sleeps(q[i], cv) then q[i := q[i].(status := READY)]
    else WakeOne(q, cv, i + 1)
  }

  function WakeAll(q: seq<Thread>, cv: int, i: nat): seq<Thread> {
    seq(|q|, k requires 0 <= k < |q| => if k >= i && Sleeps(q[k], cv) then q[k].(status := READY) else q[k])
  }

  predicate Can(s: Sched, e: Event) {
    match e
    case Dispatch => !s.cpu && (Pick(s.que) != NONE || 0 <= s.last < |s.que|)
    case Yield => s.cpu && 0 <= s.current < |s.que|
    case Exit => s.cpu && 0 <= s.current < |s.que|
    case Wait(_) => s.cpu && 0 <= s.current < |s.que|
    case Kill(tid) => tid < |s.que|
    case _ => true
  }

  function Step(s: Sched, e: Event): Sched
    requires Can(s, e)
  {
    match e
    case Create =>
      var i := Alloc(s.que, |s.que|);
      if i == NONE then s
      else s.(que := s.que[i := s.que[i].(status := READY, counter := DEFAULT_COUNTER)])
    case Dispatch =>
      var i := if Pick(s.que) != NONE then Pick(s.que) else s.last;
      Sched(s.que[i := s.que[i].(status := RUNNING)], i, i, true)
    case Yield =>
      var t := s.que[s.current];
      s.(que := s.que[s.current := t.(status := READY, counter := t.counter - 1)], cpu := false)
    case Exit => s.(que := s.que[s.current := s.que[s.current].(status := ZOMBIE)], cpu := false)
    case Wait(cv) => s.(que := s.que[s.current := s.que[s.current].(status := SLEEPING, cv := cv)], cpu := false)
    case Signal(cv) => s.(que := WakeOne(s.que, cv, 1))
    case Broadcast(cv) => s.(que := WakeAll(s.que, cv, 1))
    case Kill(tid) => s.(que := s.que[tid := s.que[tid].(status := ZOMBIE)])
  }

  // A running thread is the current one.
  ghost predicate Inv(s: Sched) {
    && (s.cpu ==> 0 <= s.current < |s.que| && s.que[s.current].status == RUNNING)
    && (forall i :: 0 <= i < |s.que| && s.que[i].status == RUNNING ==> s.cpu && i == s.current)
  }

  // Zombies stay zombies, and only a thread that is ready and has credit starts running.
  ghost predicate Lawful(q: seq<Thread>, q': seq<Thread>) {
    && |q'| == |q|
    && (forall i :: 0 <= i < |q| && q[i].status == ZOMBIE ==> q'[i].status == ZOMBIE)
    && (forall i :: 0 <= i < |q| && q'[i].status == RUNNING && q[i].status != RUNNING ==> Eligible(q[i]))
  }

  // The dispatch finds an eligible thread; the thread killed is not the one running.
  predicate Sound(s: Sched, e: Event) {
    match e
    case Dispatch => Pick(s.que) != NONE
    case Kill(tid) => !(s.cpu && tid == s.current)
    case _ => true
  }

  lemma {:induction false} WakeOneAt(q: seq<Thread>, cv: int, i: nat)
    ensures |WakeOne(q, cv, i)| == |q|
    ensures forall k :: 0 <= k < |q| ==>
      WakeOne(q, cv, i)[k] == q[k] || (k >= i && Sleeps(q[k], cv) && WakeOne(q, cv, i)[k] == q[k].(status := READY))
    decreases |q| - i
  {
    if i < |q| { WakeOneAt(q, cv, i + 1); }
  }

  lemma {:induction false} AllocAt(q: seq<Thread>, n: nat)
    requires n <= |q|
    ensures var i := Alloc(q, n);
            if i == NONE then forall k :: |q| - n <= k < |q| ==> q[k].status != UNUSED && q[k].status != STOP
            else && (q[i].status == UNUSED || q[i].status == STOP)
                 && forall k :: |q| - n <= k < i ==> q[k].status != UNUSED && q[k].status != STOP
    decreases n
  {
    if n > 0 { AllocAt(q, n - 1); }
  }

  // Exactly the sound events keep the thread table in order.
  lemma StepExactly(s: Sched, e: Event)
    requires Inv(s) && Can(s, e)
    ensures Inv(Step(s, e)) && Lawful(s.que, Step(s, e).que) <==> Sound(s, e)
  {
    AllocAt(s.que, |s.que|);
    PickIsBest(s.que, Pick(s.que));
    match e
    case Signal(cv) => WakeOneAt(s.que, cv, 1);
    case Dispatch =>
      if !Sound(s, e) {
        assert !Eligible(s.que[s.last]) && Step(s, e).que[s.last].status == RUNNING;
        assert s.que[s.last].status != RUNNING;
      }
    case _ =>
  }

  // ---- runs

  function Run(s: Sched, es: seq<Event>): Sched
    requires Legal(s, es)
    decreases |es|
  {
    if es == [] then s else Run(Step(s, es[0]), es[1..])
  }

  predicate Legal(s: Sched, es: seq<Event>)
    decreases |es|
  {
    es == [] || (Can(s, es[0]) && Legal(Step(s, es[0]), es[1..]))
  }

  predicate AllSound(s: Sched, es: seq<Event>)
    requires Legal(s, es)
    decreases |es|
  {
    es == [] || (Sound(s, es[0]) && AllSound(Step(s, es[0]), es[1..]))
  }

  lemma {:induction false} RunKeeps(s: Sched, es: seq<Event>)
    requires Inv(s) && Legal(s, es) && AllSound(s, es)
    ensures Inv(Run(s, es)) && |Run(s, es).que| == |s.que|
    ensures forall i :: 0 <= i < |s.que| && s.que[i].status == ZOMBIE ==> Run(s, es).que[i].status == ZOMBIE
    decreases |es|
  {
    if es != [] {
      StepExactly(s, es[0]);
      RunKeeps(Step(s, es[0]), es[1..]);
    }
  }

  // The tids that the creations of a run return.
  function Created(s: Sched, es: seq<Event>): seq<int>
    requires Legal(s, es)
    decreases |es|
  {
    if es == [] then []
    else (if es[0] == Create && Alloc(s.que, |s.que|) != NONE then [Alloc(s.que, |s.que|)] else [])
         + Created(Step(s, es[0]), es[1..])
  }

  predicate Used(t: Thread) {
    t.status != UNUSED && t.status != STOP
  }

  lemma UsedStays(s: Sched, e: Event)
    requires Can(s, e)
    ensures |Step(s, e).que| == |s.que|
    ensures forall i :: 0 <= i < |s.que| && Used(s.que[i]) ==> Used(Step(s, e).que[i])
    ensures e == Create && Alloc(s.que, |s.que|) != NONE ==>
      !Used(s.que[Alloc(s.que, |s.que|)]) && Used(Step(s, e).que[Alloc(s.que, |s.que|)])
  {
    AllocAt(s.que, |s.que|);
    if e.Signal? { WakeOneAt(s.que, e.cv, 1); }
  }

  // Over any run, sound or not, no slot is handed out twice.
  lemma {:induction false} TidsDistinct(s: Sched, es: seq<Event>)
    requires Legal(s, es)
    ensures forall i, j :: 0 <= i < j < |Created(s, es)| ==> Created(s, es)[i] != Created(s, es)[j]
    ensures forall i :: 0 <= i < |Created(s, es)| ==>
      0 <= Created(s, es)[i] < |s.que| && !Used(s.que[Created(s, es)[i]])
    decreases |es|
  {
    if es != [] {
      UsedStays(s, es[0]);
      TidsDistinct(Step(s, es[0]), es[1..]);
    }
  }

  lemma AtMostAllSlots(s: Sched, es: seq<Event>)
    requires Legal(s, es)
    ensures |Created(s, es)| <= |s.que|
  {
    TidsDistinct(s, es);
    var tids := set x | x in Created(s, es);
    Counting.ElementsSize(Created(s, es));
    Counting.SubsetSize(tids, Counting.Below(|s.que|));
  }

  // ---- signals, broadcasts and kills

  // The threads asleep on cv, from slot 1 on.
  ghost function Waiting(q: seq<Thread>, cv: int): set<int> {
    set k | 1 <= k < |q| && q[k].status == SLEEPING && q[k].cv == cv
  }

  ghost predicate Lowest(q: seq<Thread>, cv: int, k: int) {
    k in Waiting(q, cv) && forall j :: j in Waiting(q, cv) ==> k <= j
  }

  // A signal makes the lowest thread waiting READY and changes nothing else; it changes nothing at
  // all exactly when there is none.
  lemma SignalWakesLowest(q: seq<Thread>, cv: int)
    ensures forall k :: Lowest(q, cv, k) ==> WakeOne(q, cv, 1) == q[k := Thread(READY, q[k].counter, cv)]
    ensures WakeOne(q, cv, 1) == q <==> Waiting(q, cv) == {}
    ensures Waiting(q, cv) == {} || exists k :: Lowest(q, cv, k)
  {
    WakesFrom(q, cv, 1);
    if Waiting(q, cv) != {} {
      var k := Woken(q, cv, 1);
      assert Lowest(q, cv, k);
    } else {
      NoSleeper(q, cv);
    }
  }

  lemma NoSleeper(q: seq<Thread>, cv: int)
    requires Waiting(q, cv) == {}
    ensures forall k :: 1 <= k < |q| ==> !Sleeps(q[k], cv)
  {
    forall k | 1 <= k < |q| ensures !Sleeps(q[k], cv) { assert k !in Waiting(q, cv); }
  }

  // The first sleeper from slot i on.
  lemma {:induction false} Woken(q: seq<Thread>, cv: int, i: nat) returns (k: int)
    requires exists k :: i <= k < |q| && Sleeps(q[k], cv)
    ensures i <= k < |q| && Sleeps(q[k], cv) && forall j :: i <= j < k ==> !Sleeps(q[j], cv)
    decreases |q| - i
  {
    k := i;
    if !Sleeps(q[i], cv) { k := Woken(q, cv, i + 1); }
  }

  lemma {:induction false} WakesFrom(q: seq<Thread>, cv: int, i: nat)
    ensures forall k | i <= k < |q| && Sleeps(q[k], cv) && (forall j :: i <= j < k ==> !Sleeps(q[j], cv)) ::
      WakeOne(q, cv, i) == q[k := Thread(READY, q[k].counter, cv)]
    ensures WakeOne(q, cv, i) == q <==> forall k :: i <= k < |q| ==> !Sleeps(q[k], cv)
    decreases |q| - i
  {
    if i < |q| {
      WakesFrom(q, cv, i + 1);
      if Sleeps(q[i], cv) { assert WakeOne(q, cv, i)[i] != q[i]; }
    }
  }

  // A broadcast makes every thread from slot 1 on that sleeps on cv READY and changes no other.
  lemma BroadcastWakesAll(q: seq<Thread>, cv: int)
    ensures |WakeAll(q, cv, 1)| == |q|
    ensures forall k :: 0 <= k < |q| ==>
      WakeAll(q, cv, 1)[k] ==
        if k >= 1 && q[k].status == SLEEPING && q[k].cv == cv then Thread(READY, q[k].counter, cv) else q[k]
  {
  }

  function Signals(q: seq<Thread>, cv: int, n: nat): seq<Thread>
    decreases n
  {
    if n == 0 then q else Signals(WakeOne(q, cv, 1), cv, n - 1)
  }

  // As many signals as threads are waiting come to one broadcast.
  lemma {:induction false} SignalsAreBroadcast(q: seq<Thread>, cv: int)
    ensures Signals(q, cv, |Waiting(q, cv)|) == WakeAll(q, cv, 1)
    decreases |Waiting(q, cv)|
  {
    SignalWakesLowest(q, cv);
    hide WakeOne, WakeAll, Lowest, Waiting;
    if Waiting(q, cv) == {} {
      NoneWaiting(q, cv);
    } else {
      var k :| Lowest(q, cv, k);
      OneLess(q, cv, k);
      SignalsAreBroadcast(WakeOne(q, cv, 1), cv);
    }
  }

  lemma NoneWaiting(q: seq<Thread>, cv: int)
    requires Waiting(q, cv) == {}
    ensures WakeAll(q, cv, 1) == q
  {
    NoSleeper(q, cv);
  }

  lemma OneLess(q: seq<Thread>, cv: int, k: int)
    requires Lowest(q, cv, k)
    ensures |Waiting(WakeOne(q, cv, 1), cv)| == |Waiting(q, cv)| - 1
    ensures WakeAll(WakeOne(q, cv, 1), cv, 1) == WakeAll(q, cv, 1)
  {
    SignalWakesLowest(q, cv);
    hide WakeOne;
    assert Waiting(WakeOne(q, cv, 1), cv) == Waiting(q, cv) - {k};
  }

  // Over every sound run a sleeper stays as it is until its condition is signalled or broadcast
  // or it is killed.
  lemma {:induction false} SleeperStays(s: Sched, i: nat, cv: int, es: seq<Event>)
    requires Inv(s) && Legal(s, es) && AllSound(s, es)
    requires i < |s.que| && s.que[i].status == SLEEPING && s.que[i].cv == cv
    requires forall k :: 0 <= k < |es| ==> es[k] != Signal(cv) && es[k] != Broadcast(cv) && es[k] != Kill(i)
    ensures i < |Run(s, es).que| && Run(s, es).que[i] == s.que[i]
    decreases |es|
  {
    if es != [] {
      StepExactly(s, es[0]);
      SleeperStep(s, i, cv, es[0]);
      SleeperStays(Step(s, es[0]), i, cv, es[1..]);
    }
  }

  lemma SleeperStep(s: Sched, i: nat, cv: int, e: Event)
    requires Inv(s) && Can(s, e) && Sound(s, e)
    requires i < |s.que| && s.que[i].status == SLEEPING && s.que[i].cv == cv
    requires e != Signal(cv) && e != Broadcast(cv) && e != Kill(i)
    ensures i < |Step(s, e).que| && Step(s, e).que[i] == s.que[i]
  {
    AllocAt(s.que, |s.que|);
    PickIsBest(s.que, Pick(s.que));
    if e.Signal? { WakeOneAt(s.que, e.cv, 1); }
  }

  // A thread that waits on cv sleeps on it, over every sound run, until cv is signalled or
  // broadcast or it is killed; a broadcast of cv makes it READY exactly when it is not in slot 0.
  lemma WaiterIsWoken(s: Sched, cv: int, es: seq<Event>)
    requires Inv(s) && s.cpu
    requires Legal(s, [Wait(cv)] + es) && AllSound(s, [Wait(cv)] + es)
    requires forall k :: 0 <= k < |es| ==> es[k] != Signal(cv) && es[k] != Broadcast(cv) && es[k] != Kill(s.current)
    ensures
      var i, t := s.current, Run(s, [Wait(cv)] + es);
      && i < |t.que| && t.que[i] == Thread(SLEEPING, s.que[i].counter, cv)
      && |Step(t, Broadcast(cv)).que| == |t.que|
      && Step(t, Broadcast(cv)).que[i] == Thread(if i >= 1 then READY else SLEEPING, s.que[i].counter, cv)
  {
    assert ([Wait(cv)] + es)[1..] == es;
    StepExactly(s, Wait(cv));
    SleeperStays(Step(s, Wait(cv)), s.current, cv, es);
  }

  // The slots that the dispatches of a run set running.
  function Dispatched(s: Sched, es: seq<Event>): seq<int>
    requires Legal(s, es)
    decreases |es|
  {
    if es == [] then []
    else (if es[0] == Dispatch then [Step(s, Dispatch).current] else []) + Dispatched(Step(s, es[0]), es[1..])
  }

  lemma {:induction false} ZombieNeverRuns(s: Sched, i: nat, es: seq<Event>)
    requires Inv(s) && Legal(s, es) && AllSound(s, es) && i < |s.que| && s.que[i].status == ZOMBIE
    ensures i !in Dispatched(s, es)
    decreases |es|
  {
    if es != [] {
      StepExactly(s, es[0]);
      PickIsBest(s.que, Pick(s.que));
      ZombieNeverRuns(Step(s, es[0]), i, es[1..]);
    }
  }

  // A kill makes that thread a zombie and changes nothing else, and no dispatch of a sound run
  // sets it running again.
  lemma KillIsFinal(s: Sched, tid: nat, es: seq<Event>)
    requires Inv(s) && Legal(s, [Kill(tid)] + es) && AllSound(s, [Kill(tid)] + es)
    ensures
      var t := Step(s, Kill(tid));
      && tid < |s.que| && t == s.(que := s.que[tid := Thread(ZOMBIE, s.que[tid].counter, s.que[tid].cv)])
      && |Run(s, [Kill(tid)] + es).que| == |s.que| && Run(s, [Kill(tid)] + es).que[tid].status == ZOMBIE
      && tid !in Dispatched(s, [Kill(tid)] + es)
  {
    assert ([Kill(tid)] + es)[1..] == es;
    StepExactly(s, Kill(tid));
    RunKeeps(Step(s, Kill(tid)), es);
    ZombieNeverRuns(Step(s, Kill(tid)), tid, es);
  }

  // An exit does the same to the running thread.
  lemma ExitIsFinal(s: Sched, es: seq<Event>)
    requires Inv(s) && s.cpu && Legal(s, [Exit] + es) && AllSound(s, [Exit] + es)
    ensures
      var i, t := s.current, Step(s, Exit);
      && t == s.(que := s.que[i := Thread(ZOMBIE, s.que[i].counter, s.que[i].cv)], cpu := false)
      && |Run(s, [Exit] + es).que| == |s.que| && Run(s, [Exit] + es).que[i].status == ZOMBIE
      && i !in Dispatched(s, [Exit] + es)
  {
    assert ([Exit] + es)[1..] == es;
    StepExactly(s, Exit);
    RunKeeps(Step(s, Exit), es);
    ZombieNeverRuns(Step(s, Exit), s.current, es);
  }

  // The running thread survives being killed: it is READY again once it yields.
  lemma KilledRunningYields(s: Sched)
    requires Inv(s) && s.cpu
    ensures Legal(s, [Kill(s.current), Yield])
    ensures
      var q := Run(s, [Kill(s.current), Yield]).que;
      |q| == |s.que| && q[s.current].status == READY
  {
    var t := Step(s, Kill(s.current));
    assert [Kill(s.current), Yield][1..] == [Yield] && [Yield][1..] == [];
    assert Legal(t, [Yield]) && Run(t, [Yield]) == Run(Step(t, Yield), []);
  }

  // A created thread is READY with the default credit, no other slot changes, and when every
  // thread yields it is dispatched exactly that many times.
  lemma CreatedGetsItsTurns(s: Sched)
    requires Alloc(s.que, |s.que|) != NONE
    ensures
      var i, q := Alloc(s.que, |s.que|), Step(s, Create).que;
      && q == s.que[i := Thread(READY, DEFAULT_COUNTER, s.que[i].cv)]
      && Turns(q, i, TotalCredit(q, |q|)) == DEFAULT_COUNTER
  {
    CreditIsTurns(Step(s, Create).que, Alloc(s.que, |s.que|));
  }

  // ---- the rounds of module Scheduler are runs of dispatches and yields or exits

  function Leaving(l: Leave): Event {
    match l case ByYield => Yield case ByExit => Exit
  }

  function Rounds(leaves: seq<Leave>): seq<Event> {
    if leaves == [] then [] else [Dispatch, Leaving(leaves[0])] + Rounds(leaves[1..])
  }

  lemma RoundIsTwoSteps(s: Sched, l: Leave)
    requires !s.cpu && Pick(s.que) != NONE
    ensures Can(s, Dispatch) && Can(Step(s, Dispatch), Leaving(l))
    ensures var t := Step(Step(s, Dispatch), Leaving(l));
            t.que == Round(s.que, l) && !t.cpu
  {
    PickIsBest(s.que, Pick(s.que));
  }

  lemma {:induction false} RoundsAreRuns(s: Sched, leaves: seq<Leave>)
    requires !s.cpu && forall k :: 0 <= k < |leaves| ==> Pick(After(s.que, leaves, k)) != NONE
    ensures Legal(s, Rounds(leaves)) && Run(s, Rounds(leaves)).que == After(s.que, leaves, |leaves|)
    ensures !Run(s, Rounds(leaves)).cpu
    decreases |leaves|
  {
    if leaves != [] {
      assert Pick(After(s.que, leaves, 0)) != NONE;
      RoundIsTwoSteps(s, leaves[0]);
      var t, u := Step(s, Dispatch), Step(Step(s, Dispatch), Leaving(leaves[0]));
      forall k | 0 <= k < |leaves[1..]|
        ensures Pick(After(u.que, leaves[1..], k)) != NONE
      {
        assert After(s.que, leaves, k + 1) == After(u.que, leaves[1..], k);
      }
      RoundsAreRuns(u, leaves[1..]);
      var es := Rounds(leaves);
      assert es[1..][1..] == Rounds(leaves[1..]) && es[0] == Dispatch && es[1..][0] == Leaving(leaves[0]);
      assert Legal(t, es[1..]) && Run(t, es[1..]) == Run(u, Rounds(leaves[1..]));
    }
  }

  lemma {:induction false} StaysEligible(q: seq<Thread>, i: nat, leaves: seq<Leave>, k: nat)
    requires i < |q| && Eligible(q[i]) && k <= |leaves| && k <= Scheduler.Wait(q, i, leaves)
    ensures |After(q, leaves, k)| == |q| && After(q, leaves, k)[i] == q[i] && Pick(After(q, leaves, k)) != NONE
    decreases k
  {
    PickIsBest(q, Pick(q));
    if k > 0 {
      RoundDelay(q, i, leaves[0]);
      StaysEligible(Round(q, leaves[0]), i, leaves[1..], k - 1);
    }
  }

  lemma {:induction false} AfterPrefix(q: seq<Thread>, leaves: seq<Leave>, w: nat, k: nat)
    requires k <= w <= |leaves|
    ensures After(q, leaves[..w], k) == After(q, leaves, k)
    decreases k
  {
    if k > 0 && Pick(q) != NONE {
      assert leaves[..w][0] == leaves[0] && leaves[..w][1..] == leaves[1..][..w - 1];
      AfterPrefix(Round(q, leaves[0]), leaves[1..], w - 1, k - 1);
    }
  }

  // The waiting bound on runs of events: after w rounds, w at most the delay and exactly it when no
  // thread exits, the next dispatch makes the thread in slot i the running one.
  lemma DispatchedInTime(s: Sched, i: nat, leaves: seq<Leave>) returns (w: nat)
    requires !s.cpu && i < |s.que| && Eligible(s.que[i])
    requires |leaves| >= Delay(s.que, s.que[i].counter, i, |s.que|)
    ensures w <= Delay(s.que, s.que[i].counter, i, |s.que|)
    ensures (forall k :: 0 <= k < |leaves| ==> leaves[k] == ByYield) ==>
              w == Delay(s.que, s.que[i].counter, i, |s.que|)
    ensures Legal(s, Rounds(leaves[..w])) && Can(Run(s, Rounds(leaves[..w])), Dispatch)
    ensures Step(Run(s, Rounds(leaves[..w])), Dispatch).current == i
  {
    BoundedWaiting(s.que, i, leaves);
    w := Scheduler.Wait(s.que, i, leaves);
    forall k | 0 <= k <= w
      ensures Pick(After(s.que, leaves[..w], k)) != NONE
    {
      StaysEligible(s.que, i, leaves, k);
      AfterPrefix(s.que, leaves, w, k);
    }
    RoundsAreRuns(s, leaves[..w]);
    AfterPrefix(s.que, leaves, w, w);
  }

  function Boot(n: nat): Sched {
    Sched(seq(n, _ => Thread(UNUSED, 0, NONE)), NONE, NONE, false)
  }

  // With no eligible thread left, the scheduler dispatches its last choice again: the only
  // thread of the system exits and is set running once more.
  lemma ZombieRunsAgain(n: nat)
    requires n > 0
    ensures Legal(Boot(n), [Create, Dispatch, Exit, Dispatch])
    ensures Run(Boot(n), [Create, Dispatch, Exit]).que[0].status == ZOMBIE
    ensures Run(Boot(n), [Create, Dispatch, Exit, Dispatch]).que[0].status == RUNNING
  {
    var s0 := Boot(n);
    var s1 := Step(s0, Create);
    assert s1.que[0] == Thread(READY, DEFAULT_COUNTER, NONE);
    PickIsBest(s1.que, 0);
    var s2 := Step(s1, Dispatch);
    var s3 := Step(s2, Exit);
    PickIsBest(s3.que, Pick(s3.que));
    assert Pick(s3.que) == NONE && s3.last == 0;
    var s4 := Step(s3, Dispatch);
    assert Run(s3, [Dispatch]) == Run(s4, []);
    assert Legal(s2, [Exit]) && Legal(s2, [Exit, Dispatch]) by {
      assert [Exit, Dispatch][1..] == [Dispatch] && [Exit][1..] == [] && [Dispatch][1..] == [];
    }
    assert [Dispatch, Exit][1..] == [Exit] && [Dispatch, Exit, Dispatch][1..] == [Exit, Dispatch];
    assert [Create, Dispatch, Exit][1..] == [Dispatch, Exit];
    assert [Create, Dispatch, Exit, Dispatch][1..] == [Dispatch, Exit, Dispatch];
  }

  // ---- the functions of thread.c over the global table

  class Table {
    var que: seq<Thread>
    var current: int
    var last: int
    ghost var cpu: bool

    ghost function State(): Sched
      reads this
    {
      Sched(que, current, last, cpu)
    }

    // thrInit
    constructor ()
      ensures State() == Boot(THRQUESIZE)
    {
      que := seq(THRQUESIZE, _ => Thread(UNUSED, 0, NONE));
      current, last, cpu := NONE, NONE, false;
    }

    method ThrAlloc() returns (t: int)
      ensures t == Alloc(que, |que|)
    {
      t := NONE;
      var i := 0;
      while i < |que|
        invariant 0 <= i <= |que| && t == NONE && Alloc(que, |que|) == Alloc(que, |que| - i)
      {
        if que[i].status == UNUSED || que[i].status == STOP {
          t := i;
          break;
        }
        i := i + 1;
      }
    }

    method ThrCreate() returns (tid: int)
      modifies this`que
      ensures State() == Step(old(State()), Create) && tid == Alloc(old(que), |old(que)|)
    {
      tid := ThrAlloc();
      if tid == NONE {
        return;
      }
      que := que[tid := que[tid].(status := READY)];
      que := que[tid := que[tid].(counter := DEFAULT_COUNTER)];
    }

    // One turn of the loop of thrSched; t is the source's variable of that name.
    method ThrSched()
      requires Can(State(), Dispatch)
      modifies this
      ensures State() == Step(old(State()), Dispatch)
    {
      var t := last;
      var maxp := 0;
      for i := 0 to |que|
        invariant que == old(que) && last == old(last)
        invariant Scan(que, i) == NONE ==> t == last && maxp == 0
        invariant Scan(que, i) != NONE ==> t == Scan(que, i) && maxp == que[t].counter > 0
      {
        ScanPositive(que, i);
        if que[i].status == READY && que[i].counter > maxp {
          t := i;
          maxp := que[i].counter;
        }
      }
      last := t;
      current := t;
      que := que[current := que[current].(status := RUNNING)];
      cpu := true;
    }

    lemma ScanPositive(q: seq<Thread>, n: nat)
      requires n <= |q|
      ensures Scan(q, n) != NONE ==> Eligible(q[Scan(q, n)])
    {
      ScanBest(q, n);
    }

    method ThrYeild()
      requires Can(State(), Yield)
      modifies this
      ensures State() == Step(old(State()), Yield)
    {
      que := que[current := que[current].(status := READY)];
      que := que[current := que[current].(counter := que[current].counter - 1)];
      cpu := false;
    }

    method ThrExit()
      requires Can(State(), Exit)
      modifies this
      ensures State() == Step(old(State()), Exit)
    {
      que := que[current := que[current].(status := ZOMBIE)];
      cpu := false;
    }

    method ThrKill(tid: nat)
      requires tid < |que|
      modifies this`que
      ensures State() == Step(old(State()), Kill(tid))
      ensures que == old(que)[tid := Thread(ZOMBIE, old(que)[tid].counter, old(que)[tid].cv)]
    {
      que := que[tid := que[tid].(status := ZOMBIE)];
    }

    // The part of thrCondWait that puts the thread to sleep.
    method ThrCondWait(cv: int)
      requires Can(State(), Wait(cv))
      modifies this
      ensures State() == Step(old(State()), Wait(cv))
    {
      var t := current;
      que := que[t := que[t].(cv := cv)];
      que := que[t := que[t].(status := SLEEPING)];
      cpu := false;
    }

    method ThrCondSignal(cv: int)
      modifies this`que
      ensures State() == Step(old(State()), Signal(cv))
      ensures forall k :: Lowest(old(que), cv, k) ==> que == old(que)[k := Thread(READY, old(que)[k].counter, cv)]
      ensures que == old(que) <==> Waiting(old(que), cv) == {}
    {
      SignalWakesLowest(que, cv);
      var i := 1;
      while i < |que|
        invariant 1 <= i && que == old(que) && WakeOne(que, cv, 1) == WakeOne(que, cv, i)
      {
        if que[i].status == SLEEPING && que[i].cv == cv {
          que := que[i := que[i].(status := READY)];
          return;
        }
        i := i + 1;
      }
    }

    method ThrCondBroadcast(cv: int)
      modifies this`que
      ensures State() == Step(old(State()), Broadcast(cv))
      ensures |que| == |old(que)| && forall k :: 0 <= k < |que| ==>
        que[k] == if k in Waiting(old(que), cv) then Thread(READY, old(que)[k].counter, cv) else old(que)[k]
    {
      var i := 1;
      while i < |que|
        invariant 1 <= i && (|que| == |old(que)|)
        invariant forall k :: 0 <= k < |que| ==>
          que[k] == if k < i then WakeAll(old(que), cv, 1)[k] else old(que)[k]
      {
        if que[i].status == SLEEPING && que[i].cv == cv {
          que := que[i := que[i].(status := READY)];
        }
        i := i + 1;
      }
      assert que == WakeAll(old(que), cv, 1);
    }
  }
}
