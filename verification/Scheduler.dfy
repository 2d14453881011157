// The thread table and the scheduler of thread.c.
module Scheduler {
  import Arithmetic

  const THRQUESIZE: nat := 256
  const DEFAULT_COUNTER: int := 100
  const NONE: int := -1

  datatype Status = UNUSED | READY | RUNNING | SLEEPING | ZOMBIE | STOP

  // One slot of thrqueue; its tid is its index, and cv is NULL when it is NONE.
  datatype Thread = Thread(status: Status, counter: int, cv: int)

  predicate Eligible(t: Thread) {
    t.status == READY && t.counter > 0
  }

  // The dispatch rule: the highest counter among the eligible, the lowest slot on ties.
  ghost predicate Best(q: seq<Thread>, i: int) {
    && 0 <= i < |q| && Eligible(q[i])
    && (forall j :: 0 <= j < |q| && Eligible(q[j]) ==> q[j].counter <= q[i].counter)
    && (forall j :: 0 <= j < i && Eligible(q[j]) ==> q[j].counter < q[i].counter)
  }

  // The scan of thrSched over the first n slots.
  function Scan(q: seq<Thread>, n: nat): (i: int)
    requires n <= |q|
    ensures i == NONE || 0 <= i < n
  {
    if n == 0 then NONE
    else
      var i := Scan(q, n - 1);
      if Eligible(q[n - 1]) && (i == NONE || q[n - 1].counter > q[i].counter) then n - 1 else i
  }

  function Pick(q: seq<Thread>): int {
    Scan(q, |q|)
  }

  lemma {:induction false} ScanBest(q: seq<Thread>, n: nat)
    requires n <= |q|
    ensures Scan(q, n) == NONE <==> forall j :: 0 <= j < n ==> !Eligible(q[j])
    ensures Scan(q, n) != NONE ==> Best(q[..n], Scan(q, n))
  {
    if n > 0 {
      ScanBest(q, n - 1);
      assert forall j :: 0 <= j < n - 1 ==> q[..n - 1][j] == q[..n][j] == q[j];
    }
  }

  // The scan follows the dispatch rule, and the rule admits no other choice.
  lemma PickIsBest(q: seq<Thread>, i: int)
    ensures Pick(q) == i && i != NONE <==> Best(q, i)
    ensures Pick(q) == NONE <==> forall j :: 0 <= j < |q| ==> !Eligible(q[j])
  {
    ScanBest(q, |q|);
    assert q[..|q|] == q;
    if Best(q, i) {
      var p := Pick(q);
      assert Best(q, p);
      assert i == p;
    }
  }

  datatype Leave = ByYield | ByExit

  // One dispatch and the return of its thread to the scheduler.
  function Round(q: seq<Thread>, l: Leave): seq<Thread>
    requires Pick(q) != NONE
  {
    var i := Pick(q);
    match l
    case ByYield => q[i := q[i].(status := READY, counter := q[i].counter - 1)]
    case ByExit => q[i := q[i].(status := ZOMBIE)]
  }

  // ---- bounded waiting

  // What slot j can still cost a thread in slot i with counter c before its turn.
  function Ahead(t: Thread, j: nat, c: int, i: nat): nat {
    if !Eligible(t) || j == i then 0
    else (if t.counter > c then t.counter - c else 0) + (if j < i && t.counter >= c then 1 else 0)
  }

  function Delay(q: seq<Thread>, c: int, i: nat, n: nat): nat
    requires n <= |q|
  {
    if n == 0 then 0 else Delay(q, c, i, n - 1) + Ahead(q[n - 1], n - 1, c, i)
  }

  lemma {:induction false} DelayUpdate(q: seq<Thread>, c: int, i: nat, n: nat, p: nat, t: Thread)
    requires n <= |q| && p < |q|
    ensures Delay(q[p := t], c, i, n) ==
            Delay(q, c, i, n) + if p < n then Ahead(t, p, c, i) - Ahead(q[p], p, c, i) else 0
  {
    if n > 0 { DelayUpdate(q, c, i, n - 1, p, t); }
  }

  lemma {:induction false} DelayHas(q: seq<Thread>, c: int, i: nat, n: nat, p: nat)
    requires p < n <= |q|
    ensures Delay(q, c, i, n) >= Ahead(q[p], p, c, i)
  {
    if p < n - 1 { DelayHas(q, c, i, n - 1, p); }
  }

  // A round that dispatches another thread takes one off the delay when the thread yields,
  // and at least one when it exits.
  lemma RoundDelay(q: seq<Thread>, i: nat, l: Leave)
    requires i < |q| && Eligible(q[i]) && Pick(q) != i
    ensures Pick(q) != NONE && |Round(q, l)| == |q| && Round(q, l)[i] == q[i]
    ensures Delay(Round(q, l), q[i].counter, i, |q|) < Delay(q, q[i].counter, i, |q|)
    ensures l == ByYield ==> Delay(Round(q, l), q[i].counter, i, |q|) == Delay(q, q[i].counter, i, |q|) - 1
  {
    var p := Pick(q);
    PickIsBest(q, p);
    DelayUpdate(q, q[i].counter, i, |q|, p, Round(q, l)[p]);
    DelayHas(q, q[i].counter, i, |q|, p);
  }

  // With no delay left it is the thread's turn.
  lemma NoDelay(q: seq<Thread>, i: nat)
    requires i < |q| && Eligible(q[i])
    ensures Delay(q, q[i].counter, i, |q|) == 0 ==> Pick(q) == i
  {
    PickIsBest(q, Pick(q));
    if Pick(q) != i {
      DelayHas(q, q[i].counter, i, |q|, Pick(q));
    }
  }

  // How many other dispatches there are before that of slot i.
  function Wait(q: seq<Thread>, i: nat, leaves: seq<Leave>): nat
    requires i < |q| && Eligible(q[i])
    decreases |leaves|
  {
    if leaves == [] || Pick(q) == i then 0
    else
      RoundDelay(q, i, leaves[0]);
      1 + Wait(Round(q, leaves[0]), i, leaves[1..])
  }

  function After(q: seq<Thread>, leaves: seq<Leave>, k: nat): seq<Thread>
    requires k <= |leaves|
    decreases k
  {
    if k == 0 || Pick(q) == NONE then q else After(Round(q, leaves[0]), leaves[1..], k - 1)
  }

  // A READY thread with credit is dispatched after at most its delay in other dispatches,
  // and after exactly that many when no thread exits.
  lemma {:induction false} BoundedWaiting(q: seq<Thread>, i: nat, leaves: seq<Leave>)
    requires i < |q| && Eligible(q[i]) && |leaves| >= Delay(q, q[i].counter, i, |q|)
    ensures Wait(q, i, leaves) <= Delay(q, q[i].counter, i, |q|)
    ensures (forall k :: 0 <= k < |leaves| ==> leaves[k] == ByYield) ==>
              Wait(q, i, leaves) == Delay(q, q[i].counter, i, |q|)
    ensures Pick(After(q, leaves, Wait(q, i, leaves))) == i
    ensures forall k :: 0 <= k < Wait(q, i, leaves) ==> Pick(After(q, leaves, k)) != i
    decreases |leaves|
  {
    NoDelay(q, i);
    if Pick(q) != i {
      RoundDelay(q, i, leaves[0]);
      BoundedWaiting(Round(q, leaves[0]), i, leaves[1..]);
      forall k | 0 <= k < Wait(q, i, leaves) ensures Pick(After(q, leaves, k)) != i {
        if k > 0 { assert After(q, leaves, k) == After(Round(q, leaves[0]), leaves[1..], k - 1); }
      }
    } else {
      PickedFirst(q, i);
    }
  }

  lemma PickedFirst(q: seq<Thread>, i: nat)
    requires i < |q| && Pick(q) == i
    ensures Delay(q, q[i].counter, i, |q|) == 0
  {
    PickIsBest(q, i);
    DelayZero(q, i, |q|);
  }

  lemma {:induction false} DelayZero(q: seq<Thread>, i: nat, n: nat)
    requires n <= |q| && Best(q, i)
    ensures Delay(q, q[i].counter, i, n) == 0
  {
    if n > 0 { DelayZero(q, i, n - 1); }
  }

  // ---- runs in which every thread yields

  function Yields(q: seq<Thread>, k: nat): seq<Thread>
    decreases k
  {
    if k == 0 then q
    else
      var p := Yields(q, k - 1);
      if Pick(p) == NONE then p else Round(p, ByYield)
  }

  lemma YieldsStep(q: seq<Thread>, k: nat)
    ensures Yields(q, 0) == q
    ensures Pick(Yields(q, k)) != NONE ==> Yields(q, k + 1) == Round(Yields(q, k), ByYield)
  {
  }

  // The READY slots are those of r, in ascending order; the first pos of them have been
  // dispatched once more than the rest, which have credit c.
  ghost predicate Level(q: seq<Thread>, r: seq<int>, c: int, pos: nat) {
    && pos <= |r|
    && (forall j :: 0 <= j < |r| ==> 0 <= r[j] < |q| && q[r[j]].status == READY)
    && (forall i, j :: 0 <= i < j < |r| ==> r[i] < r[j])
    && (forall k :: 0 <= k < |q| && q[k].status == READY ==> k in r)
    && (forall j :: 0 <= j < |r| ==> q[r[j]].counter == if j < pos then c - 1 else c)
  }

  lemma LevelStep(q: seq<Thread>, r: seq<int>, c: int, pos: nat)
    requires Level(q, r, c, pos) && pos < |r| && c > 0
    ensures Pick(q) == r[pos] && Level(Round(q, ByYield), r, c, pos + 1)
    ensures pos + 1 == |r| ==> Level(Round(q, ByYield), r, c - 1, 0)
  {
    assert Best(q, r[pos]);
    PickIsBest(q, r[pos]);
  }

  // Equal credits give round robin: dispatch number k goes to the (k mod n)-th READY slot,
  // and the credits differ by at most one, the lower ones in a prefix of the slots.
  lemma {:induction false} RoundRobin(q: seq<Thread>, r: seq<int>, c: nat, k: nat)
    requires Level(q, r, c, 0) && k < |r| * c
    ensures Level(Yields(q, k), r, c - k / |r|, k % |r|)
    ensures Pick(Yields(q, k)) == r[k % |r|]
  {
    hide Level, Pick, Round;
    var n := |r|;
    assert n > 0;
    if k == 0 {
      Arithmetic.ModUnique(0, n, 0, 0);
    } else {
      RoundRobin(q, r, c, k - 1);
      Arithmetic.DivNext(k - 1, n);
      Arithmetic.QuotientBelow(k - 1, n, c);
      LevelStep(Yields(q, k - 1), r, c - (k - 1) / n, (k - 1) % n);
    }
    Arithmetic.QuotientBelow(k, n, c);
    LevelStep(Yields(q, k), r, c - k / n, k % n);
  }

  // After n * c dispatches no thread is eligible.
  lemma RoundRobinEnds(q: seq<Thread>, r: seq<int>, c: nat)
    requires Level(q, r, c, 0)
    ensures Pick(Yields(q, |r| * c)) == NONE
  {
    hide Yields, Level, Round;
    var k := |r| * c;
    if |r| == 0 || c == 0 {
      assert k == 0;
      YieldsStep(q, 0);
      NoneLeft(q, r);
    } else {
      LastTurn(|r|, c);
      RoundRobin(q, r, c, k - 1);
      LevelStep(Yields(q, k - 1), r, 1, |r| - 1);
      YieldsStep(q, k - 1);
      NoneLeft(Yields(q, k), r);
    }
  }

  lemma NoneLeft(q: seq<Thread>, r: seq<int>)
    requires Level(q, r, 0, 0) || (r == [] && exists c :: Level(q, r, c, 0))
    ensures Pick(q) == NONE
  {
    PickIsBest(q, Pick(q));
  }

  lemma LastTurn(n: nat, c: nat)
    requires n > 0 && c > 0
    ensures n * c > 0 && (n * c - 1) / n == c - 1 && (n * c - 1) % n == n - 1
  {
    assert n * c == n * (c - 1) + n;
    Arithmetic.ModUnique(n * c - 1, n, c - 1, n - 1);
  }

  function Credit(t: Thread): nat {
    if Eligible(t) then t.counter else 0
  }

  function TotalCredit(q: seq<Thread>, n: nat): nat
    requires n <= |q|
  {
    if n == 0 then 0 else TotalCredit(q, n - 1) + Credit(q[n - 1])
  }

  lemma {:induction false} CreditUpdate(q: seq<Thread>, n: nat, p: nat, t: Thread)
    requires n <= |q| && p < |q|
    ensures TotalCredit(q[p := t], n) == TotalCredit(q, n) + if p < n then Credit(t) - Credit(q[p]) else 0
    ensures p < n ==> TotalCredit(q, n) >= Credit(q[p])
  {
    if n > 0 { CreditUpdate(q, n - 1, p, t); }
  }

  // How many of the first k dispatches go to slot i.
  function Turns(q: seq<Thread>, i: nat, k: nat): nat {
    if k == 0 then 0 else Turns(q, i, k - 1) + if Pick(Yields(q, k - 1)) == i then 1 else 0
  }

  lemma {:induction false} CreditSpent(q: seq<Thread>, i: nat, k: nat)
    requires i < |q| && k <= TotalCredit(q, |q|)
    ensures var p := Yields(q, k);
            && |p| == |q| && TotalCredit(p, |q|) == TotalCredit(q, |q|) - k
            && Credit(p[i]) == Credit(q[i]) - Turns(q, i, k)
  {
    if k > 0 {
      CreditSpent(q, i, k - 1);
      var p := Yields(q, k - 1);
      NoCredit(p);
      var j := Pick(p);
      PickIsBest(p, j);
      CreditUpdate(p, |q|, j, Yields(q, k)[j]);
    }
  }

  lemma NoCredit(q: seq<Thread>)
    ensures Pick(q) == NONE <==> TotalCredit(q, |q|) == 0
  {
    PickIsBest(q, Pick(q));
    if Pick(q) == NONE {
      CreditZero(q, |q|);
    } else {
      CreditUpdate(q, |q|, Pick(q), q[Pick(q)]);
    }
  }

  lemma {:induction false} CreditZero(q: seq<Thread>, n: nat)
    requires n <= |q| && forall j :: 0 <= j < n ==> !Eligible(q[j])
    ensures TotalCredit(q, n) == 0
  {
    if n > 0 { CreditZero(q, n - 1); }
  }

  // Counters are never refilled: with nobody exiting, the scheduler makes exactly as many
  // dispatches as there is credit, each thread getting its own.
  lemma CreditIsTurns(q: seq<Thread>, i: nat)
    requires i < |q|
    ensures Pick(Yields(q, TotalCredit(q, |q|))) == NONE
    ensures forall k :: 0 <= k < TotalCredit(q, |q|) ==> Pick(Yields(q, k)) != NONE
    ensures Turns(q, i, TotalCredit(q, |q|)) == Credit(q[i])
  {
    var m := TotalCredit(q, |q|);
    CreditSpent(q, i, m);
    NoCredit(Yields(q, m));
    forall k | 0 <= k < m ensures Pick(Yields(q, k)) != NONE {
      CreditSpent(q, i, k);
      NoCredit(Yields(q, k));
    }
    CreditUpdate(Yields(q, m), |q|, i, Yields(q, m)[i]);
  }
}
