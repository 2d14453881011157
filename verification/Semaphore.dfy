// The producer and the consumer of thread.c:332-354 over the two semaphores, as interleaved steps.
module Semaphore {
  // Where a thread is in a round of its loop.
  datatype At =
    | Down     // in thrSemDown: goes on when the count is positive (thread.c:311)
    | Take     // past the test, yet to lower the count (thread.c:316)
    | Body     // the slot and idx
    | Rest     // the second half of the body
    | Up       // in thrSemUp

  // Which parts are two steps each: the test and the decrement of thrSemDown, and the two
  // assignments of the body, as they are in the code.
  datatype Form = Form(splitDown: bool, splitBody: bool)

  // The rounds finished and the place in the current one.
  datatype Loop = Loop(done: nat, at: At)

  datatype State = State(emp: int, full: int, idx: int, slot: seq<int>, p: Loop, c: Loop)

  datatype Who = Producer | Consumer

  // thread.c:356-363 with k slots.
  function Init(k: nat): State {
    State(k, 0, 0, seq(k, _ => 0), Loop(0, Down), Loop(0, Down))
  }

  predicate Enabled(s: State, rounds: nat, who: Who) {
    match who
    case Producer => s.p.done < rounds && (s.p.at.Down? ==> s.emp > 0)
    case Consumer => s.c.done < rounds && (s.c.at.Down? ==> s.full > 0)
  }

  function Store(slot: seq<int>, i: int, x: int): seq<int> {
    if 0 <= i < |slot| then slot[i := x] else slot
  }

  function Step(form: Form, s: State, who: Who): State {
    match who
    case Producer =>
      (match s.p.at
       case Down =>
         if form.splitDown then s.(p := s.p.(at := Take)) else s.(emp := s.emp - 1, p := s.p.(at := Body))
       case Take => s.(emp := s.emp - 1, p := s.p.(at := Body))
       case Body =>
         if form.splitBody then s.(slot := Store(s.slot, s.idx, 1), p := s.p.(at := Rest))
         else s.(slot := Store(s.slot, s.idx, 1), idx := s.idx + 1, p := s.p.(at := Up))
       case Rest => s.(idx := s.idx + 1, p := s.p.(at := Up))
       case Up => s.(full := s.full + 1, p := Loop(s.p.done + 1, Down)))
    case Consumer =>
      (match s.c.at
       case Down =>
         if form.splitDown then s.(c := s.c.(at := Take)) else s.(full := s.full - 1, c := s.c.(at := Body))
       case Take => s.(full := s.full - 1, c := s.c.(at := Body))
       case Body =>
         if form.splitBody then s.(idx := s.idx - 1, c := s.c.(at := Rest))
         else s.(idx := s.idx - 1, slot := Store(s.slot, s.idx - 1, 0), c := s.c.(at := Up))
       case Rest => s.(slot := Store(s.slot, s.idx, 0), c := s.c.(at := Up))
       case Up => s.(emp := s.emp + 1, c := Loop(s.c.done + 1, Down)))
  }

  // A run is who moves; each step must be enabled.
  predicate Legal(form: Form, s: State, rounds: nat, run: seq<Who>)
    decreases |run|
  {
    run == [] || (Enabled(s, rounds, run[0]) && Legal(form, Step(form, s, run[0]), rounds, run[1..]))
  }

  function Run(form: Form, s: State, run: seq<Who>): State
    decreases |run|
  {
    if run == [] then s else Run(form, Step(form, s, run[0]), run[1..])
  }

  // ---- the counts, in every form

  // A unit that is in neither count.
  function Flying(l: Loop): int {
    if l.at.Down? || l.at.Take? then 0 else 1
  }

  // How often the producer has raised idx, and the consumer lowered it.
  function Raised(l: Loop): int {
    l.done + (if l.at.Up? then 1 else 0)
  }

  function Lowered(l: Loop): int {
    l.done + (if l.at.Up? || l.at.Rest? then 1 else 0)
  }

  predicate LoopOk(form: Form, rounds: nat, l: Loop, count: int) {
    && l.done <= rounds && (l.done == rounds ==> l.at.Down?)
    && (l.at.Take? ==> form.splitDown && count > 0)
    && (l.at.Rest? ==> form.splitBody)
  }

  ghost predicate Counts(form: Form, k: nat, rounds: nat, s: State) {
    && |s.slot| == k
    && s.emp >= 0 && s.full >= 0
    && s.emp + s.full + Flying(s.p) + Flying(s.c) == k
    && s.full == s.p.done - s.c.done - Flying(s.c)
    && s.idx == Raised(s.p) - Lowered(s.c)
    && LoopOk(form, rounds, s.p, s.emp) && LoopOk(form, rounds, s.c, s.full)
  }

  lemma StepKeepsCounts(form: Form, k: nat, rounds: nat, s: State, who: Who)
    requires Counts(form, k, rounds, s) && Enabled(s, rounds, who)
    ensures Counts(form, k, rounds, Step(form, s, who))
  {
  }

  // Steps in a round, and those a loop and both still have to make.
  function PerRound(form: Form): int {
    3 + (if form.splitDown then 1 else 0) + (if form.splitBody then 1 else 0)
  }

  function LoopLeft(form: Form, rounds: nat, l: Loop): int {
    PerRound(form) * (rounds - l.done) -
    match l.at
    case Down => 0
    case Take => 1
    case Body => if form.splitDown then 2 else 1
    case Rest => if form.splitDown then 3 else 2
    case Up => PerRound(form) - 1
  }

  function Left(form: Form, rounds: nat, s: State): int {
    LoopLeft(form, rounds, s.p) + LoopLeft(form, rounds, s.c)
  }

  lemma StepIsOneLess(form: Form, k: nat, rounds: nat, s: State, who: Who)
    requires Counts(form, k, rounds, s)
    ensures Left(form, rounds, Step(form, s, who)) == Left(form, rounds, s) - 1
  {
    var l := if who.Producer? then s.p else s.c;
    assert PerRound(form) * (rounds - l.done) == PerRound(form) * (rounds - (l.done + 1)) + PerRound(form);
  }

  lemma {:induction false} RunKeepsCounts(form: Form, k: nat, rounds: nat, s: State, run: seq<Who>)
    requires Counts(form, k, rounds, s) && Legal(form, s, rounds, run)
    ensures Counts(form, k, rounds, Run(form, s, run))
    ensures Left(form, rounds, Run(form, s, run)) == Left(form, rounds, s) - |run|
    decreases |run|
  {
    if run != [] {
      hide Counts, Step, Left, Enabled;
      StepKeepsCounts(form, k, rounds, s, run[0]);
      StepIsOneLess(form, k, rounds, s, run[0]);
      RunKeepsCounts(form, k, rounds, Step(form, s, run[0]), run[1..]);
    }
  }

  predicate Finished(rounds: nat, s: State) {
    s.p.done == rounds && s.c.done == rounds
  }

  // Until both loops have ended some step is enabled.
  lemma SomeoneMoves(form: Form, k: nat, rounds: nat, s: State)
    requires k >= 1 && Counts(form, k, rounds, s)
    ensures Finished(rounds, s) <==> !Enabled(s, rounds, Producer) && !Enabled(s, rounds, Consumer)
  {
  }

  // ---- the slots

  // Slots below idx are 1, the rest 0.
  ghost predicate Packed(slot: seq<int>, idx: int) {
    && 0 <= idx <= |slot|
    && (forall i :: 0 <= i < |slot| ==> slot[i] == if i < idx then 1 else 0)
  }

  // A full slot that idx does not count: just stored into, or about to be emptied.
  function Open(l: Loop): int {
    if l.at.Rest? then 1 else 0
  }

  ghost predicate Tidy(s: State) {
    Packed(s.slot, s.idx + Open(s.p) + Open(s.c))
  }

  // The bodies are single steps, or there are not the slots or rounds for two threads to be in
  // theirs at once.
  predicate BodiesApart(form: Form, k: nat, rounds: nat) {
    !form.splitBody || k <= 1 || rounds <= 1
  }

  lemma StepKeepsTidy(form: Form, k: nat, rounds: nat, s: State, who: Who)
    requires Counts(form, k, rounds, s) && Enabled(s, rounds, who) && Tidy(s) && BodiesApart(form, k, rounds)
    ensures Tidy(Step(form, s, who))
  {
    assert form.splitBody ==> Flying(s.p) + Flying(s.c) <= 1;
  }

  lemma {:induction false} RunKeepsTidy(form: Form, k: nat, rounds: nat, s: State, run: seq<Who>)
    requires Counts(form, k, rounds, s) && Legal(form, s, rounds, run) && Tidy(s) && BodiesApart(form, k, rounds)
    ensures Tidy(Run(form, s, run))
    decreases |run|
  {
    if run != [] {
      hide Counts, Step, Tidy, Enabled, BodiesApart;
      StepKeepsCounts(form, k, rounds, s, run[0]);
      StepKeepsTidy(form, k, rounds, s, run[0]);
      RunKeepsTidy(form, k, rounds, Step(form, s, run[0]), run[1..]);
    }
  }

  // Over every run with k slots, in every form: a unit is in a count or in flight, the counts stay
  // non-negative, and no slot index is out of range; and with the bodies apart idx counts the full
  // slots, which come first.
  lemma ProducerConsumer(form: Form, k: nat, rounds: nat, run: seq<Who>)
    requires Legal(form, Init(k), rounds, run)
    ensures
      var s := Run(form, Init(k), run);
      && s.emp >= 0 && s.full >= 0
      && s.emp + s.full + Flying(s.p) + Flying(s.c) == k
      && (s.p.at.Body? ==> 0 <= s.idx < k)
      && (s.c.at.Body? ==> 0 < s.idx <= k)
      && (s.c.at.Rest? ==> 0 <= s.idx < k)
      && (BodiesApart(form, k, rounds) ==> Tidy(s))
  {
    RunKeepsCounts(form, k, rounds, Init(k), run);
    if BodiesApart(form, k, rounds) {
      RunKeepsTidy(form, k, rounds, Init(k), run);
    }
  }

  // Every run ends: it has at most as many steps as two loops of all rounds, can go on unless it
  // has exactly that many, and then both loops have ended with the counts as they began and, the
  // bodies apart, every slot empty.
  lemma Terminates(form: Form, k: nat, rounds: nat, run: seq<Who>)
    requires k >= 1 && Legal(form, Init(k), rounds, run)
    ensures
      var s, all := Run(form, Init(k), run), 2 * (PerRound(form) * rounds);
      && |run| <= all
      && (|run| == all <==> !Enabled(s, rounds, Producer) && !Enabled(s, rounds, Consumer))
      && (|run| == all ==>
            && s.emp == k && s.full == 0 && s.idx == 0 && Finished(rounds, s)
            && (BodiesApart(form, k, rounds) ==> s.slot == Init(k).slot))
  {
    var s := Run(form, Init(k), run);
    ProducerConsumer(form, k, rounds, run);
    RunKeepsCounts(form, k, rounds, Init(k), run);
    SomeoneMoves(form, k, rounds, s);
    hide Step, Run, Legal;
    LeftNone(form, rounds, s.p);
    LeftNone(form, rounds, s.c);
  }

  lemma LeftNone(form: Form, rounds: nat, l: Loop)
    requires l.done <= rounds && (l.done == rounds ==> l.at.Down?)
    ensures LoopLeft(form, rounds, l) >= 0 && (LoopLeft(form, rounds, l) == 0 <==> l.done == rounds)
  {
    if l.done < rounds {
      assert PerRound(form) * (rounds - l.done) >= PerRound(form);
    }
  }

  // ---- where the slots go wrong

  // Whenever neither thread is half way through its body, the full slots come first.
  ghost predicate StaysPacked(form: Form, k: nat, rounds: nat) {
    forall run | Legal(form, Init(k), rounds, run) ::
      var s := Run(form, Init(k), run);
      s.p.at.Rest? || s.c.at.Rest? || Packed(s.slot, s.idx)
  }

  ghost predicate Reached(form: Form, k: nat, rounds: nat, s: State) {
    exists run :: Legal(form, Init(k), rounds, run) && Run(form, Init(k), run) == s
  }

  lemma {:induction false} OneMore(form: Form, s: State, rounds: nat, run: seq<Who>, who: Who)
    requires Legal(form, s, rounds, run) && Enabled(Run(form, s, run), rounds, who)
    ensures Legal(form, s, rounds, run + [who])
    ensures Run(form, s, run + [who]) == Step(form, Run(form, s, run), who)
    decreases |run|
  {
    hide Step, Enabled;
    if run == [] {
      assert [who][1..] == [] && [] + [who] == [who];
    } else {
      OneMore(form, Step(form, s, run[0]), rounds, run[1..], who);
      assert (run + [who])[1..] == run[1..] + [who];
    }
  }

  lemma Next(form: Form, k: nat, rounds: nat, s: State, who: Who)
    requires Reached(form, k, rounds, s) && Enabled(s, rounds, who)
    ensures Reached(form, k, rounds, Step(form, s, who))
  {
    hide Step, Enabled;
    var run :| Legal(form, Init(k), rounds, run) && Run(form, Init(k), run) == s;
    OneMore(form, Init(k), rounds, run, who);
  }

  // thrSemDown, in one step or two.
  lemma Downs(form: Form, k: nat, rounds: nat, s: State, who: Who)
    requires Reached(form, k, rounds, s) && Enabled(s, rounds, who)
    requires if who.Producer? then s.p.at.Down? else s.c.at.Down?
    ensures Reached(form, k, rounds,
                    if who.Producer? then s.(emp := s.emp - 1, p := s.p.(at := Body))
                    else s.(full := s.full - 1, c := s.c.(at := Body)))
  {
    hide Reached;
    Next(form, k, rounds, s, who);
    if form.splitDown {
      Next(form, k, rounds, Step(form, s, who), who);
    }
  }

  // With the body as two steps, the consumer empties slot 0 between the producer's store into
  // slot 1 and its idx++: both past their bodies, a full slot is above an empty one.
  lemma SplitBodyBreaks(form: Form, k: nat, rounds: nat) returns (s: State)
    requires form.splitBody && k >= 2 && rounds >= 2
    ensures Reached(form, k, rounds, s) && s.p.at.Up? && s.c.at.Up?
    ensures |s.slot| == k && s.slot[0] == 0 && s.slot[1] == 1 && s.idx == 1
  {
    hide Reached;
    s := Init(k);
    Begins(form, k, rounds);
    Downs(form, k, rounds, s, Producer);
    s := s.(emp := s.emp - 1, p := Loop(0, Body));
    Next(form, k, rounds, s, Producer);
    s := Step(form, s, Producer);
    Next(form, k, rounds, s, Producer);
    s := Step(form, s, Producer);
    Next(form, k, rounds, s, Producer);
    s := Step(form, s, Producer);
    Downs(form, k, rounds, s, Producer);
    s := s.(emp := s.emp - 1, p := Loop(1, Body));
    Next(form, k, rounds, s, Producer);
    s := Step(form, s, Producer);
    Downs(form, k, rounds, s, Consumer);
    s := s.(full := s.full - 1, c := Loop(0, Body));
    Next(form, k, rounds, s, Consumer);
    s := Step(form, s, Consumer);
    Next(form, k, rounds, s, Consumer);
    s := Step(form, s, Consumer);
    Next(form, k, rounds, s, Producer);
    s := Step(form, s, Producer);
  }

  lemma Begins(form: Form, k: nat, rounds: nat)
    ensures Reached(form, k, rounds, Init(k))
  {
    assert Legal(form, Init(k), rounds, []) && Run(form, Init(k), []) == Init(k);
  }

  // The full slots come first exactly when the body is one step or the bodies cannot overlap;
  // whether the test and the decrement of thrSemDown are one step makes no difference, since only
  // one thread lowers each count.
  lemma PackedExactly(form: Form, k: nat, rounds: nat)
    ensures StaysPacked(form, k, rounds) <==> BodiesApart(form, k, rounds)
  {
    if BodiesApart(form, k, rounds) {
      forall run | Legal(form, Init(k), rounds, run)
        ensures var s := Run(form, Init(k), run);
                s.p.at.Rest? || s.c.at.Rest? || Packed(s.slot, s.idx)
      {
        ProducerConsumer(form, k, rounds, run);
      }
    } else {
      var s := SplitBodyBreaks(form, k, rounds);
      var run :| Legal(form, Init(k), rounds, run) && Run(form, Init(k), run) == s;
      assert !Packed(s.slot, s.idx);
    }
  }
}
