/** Deferred interrupt work with priorities, as a machine in which an interrupt may arrive between any
    two steps.  A step is what runs with interrupts masked, or a single access outside of that. */
module IrqEvents {

  const IDLE_PRIORITY: nat := 0x10000

  /** A smaller number is more urgent.  `id` counts arrivals. */
  datatype Event = Event(prio: nat, id: nat)

  /** Where an activation of `run_irq_event` is: before its emptiness test, past the test and before its
      critical section, in the handler of `ev`, or after it and before the priority is put back. */
  datatype Point =
    | Testing
    | Taking
    | Handling(ev: Event, prev: nat)
    | Restoring(ev: Event, prev: nat)

  /** `stack` holds the activations, innermost first; `added`, `started` and `ended` record history. */
  datatype State = State(queue: seq<Event>, stack: seq<Point>, curr: nat, added: seq<Event>, started: seq<Event>, ended: seq<Event>)

  const INITIAL := State([], [], IDLE_PRIORITY, [], [], [])

  // ---------------------------------------------------------------- the queue

  /** `add_irq_event`: in front of the first event of larger number. */
  function Insert(q: seq<Event>, e: Event): seq<Event> {
    if q == [] || q[0].prio > e.prio then [e] + q else [q[0]] + Insert(q[1..], e)
  }

  predicate Before(a: Event, b: Event) {
    a.prio < b.prio || (a.prio == b.prio && a.id < b.id)
  }

  /** In order of urgency, and of arrival among equals. */
  ghost predicate Ordered(q: seq<Event>) {
    forall i, j :: 0 <= i < j < |q| ==> Before(q[i], q[j])
  }

  lemma {:induction false} InsertMembers(q: seq<Event>, e: Event)
    ensures multiset(Insert(q, e)) == multiset(q) + multiset{e}
  {
    if q != [] && q[0].prio <= e.prio {
      InsertMembers(q[1..], e);
      assert q == [q[0]] + q[1..];
    }
  }

  /** A new arrival keeps the order. */
  lemma {:induction false} InsertKeepsOrder(q: seq<Event>, e: Event)
    requires Ordered(q) && forall x :: x in q ==> x.id < e.id
    ensures Ordered(Insert(q, e))
  {
    if q != [] && q[0].prio <= e.prio {
      InsertKeepsOrder(q[1..], e);
      var r := Insert(q[1..], e);
      InsertMembers(q[1..], e);
      assert q[0] in q;
      forall x | x in r
        ensures Before(q[0], x)
      {
        assert x in multiset(r);
        if x != e {
          assert x in q[1..];
        }
      }
    } else {
      assert forall j :: 0 <= j < |q| ==> q[j] in q;
    }
  }

  // ---------------------------------------------------------------- steps

  datatype Step = Interrupt(prio: nat) | Test | Take | Finish | Restore

  predicate Enabled(s: State, step: Step) {
    match step
    case Interrupt(_) => true
    case Test => s.stack != [] && s.stack[0].Testing?
    case Take => s.stack != [] && s.stack[0].Taking? && s.queue != []
    case Finish => s.stack != [] && s.stack[0].Handling?
    case Restore => s.stack != [] && s.stack[0].Restoring?
  }

  function Next(s: State, step: Step): State
    requires Enabled(s, step)
  {
    match step
    case Interrupt(prio) =>
      var e := Event(prio, |s.added|);
      s.(queue := Insert(s.queue, e), stack := [Testing] + s.stack, added := s.added + [e])
    case Test =>
      if s.queue == [] then s.(stack := s.stack[1..]) else s.(stack := [Taking] + s.stack[1..])
    case Take =>
      var e := s.queue[0];
      if s.curr <= e.prio then s.(stack := s.stack[1..])
      else s.(queue := s.queue[1..], stack := [Handling(e, s.curr)] + s.stack[1..], curr := e.prio, started := s.started + [e])
    case Finish =>
      var p := s.stack[0];
      s.(stack := [Restoring(p.ev, p.prev)] + s.stack[1..], ended := s.ended + [p.ev])
    case Restore =>
      s.(stack := [Testing] + s.stack[1..], curr := s.stack[0].prev)
  }

  // ---------------------------------------------------------------- the invariant

  /** The priority that the activations, innermost first, leave current. */
  function Level(stack: seq<Point>): nat {
    if stack == [] then IDLE_PRIORITY
    else match stack[0]
      case Handling(e, _) => e.prio
      case Restoring(e, _) => e.prio
      case _ => Level(stack[1..])
  }

  /** Each handler interrupted a less urgent level, and will put exactly that level back. */
  ghost predicate Nested(stack: seq<Point>) {
    if stack == [] then true
    else
      Nested(stack[1..]) &&
      match stack[0]
      case Handling(e, prev) => e.prio < prev == Level(stack[1..])
      case Restoring(e, prev) => e.prio < prev == Level(stack[1..])
      case _ => true
  }

  /** The events being handled, innermost first. */
  function Running(stack: seq<Point>): seq<Event> {
    if stack == [] then []
    else (if stack[0].Handling? then [stack[0].ev] else []) + Running(stack[1..])
  }

  ghost predicate Inv(s: State) {
    && Ordered(s.queue) && Nested(s.stack) && s.curr == Level(s.stack)
    && (forall i :: 0 <= i < |s.added| ==> s.added[i].id == i)
    && multiset(s.added) == multiset(s.queue) + multiset(s.started)
    && multiset(s.started) == multiset(s.ended) + multiset(Running(s.stack))
    && (s.stack == [] ==> forall e :: e in s.queue ==> e.prio >= IDLE_PRIORITY)
  }

  lemma {:induction false} InitialInv()
    ensures Inv(INITIAL)
  {
  }

  lemma {:induction false} QueuedIsOld(s: State, e: Event)
    requires Inv(s) && (e in s.queue || e in s.started)
    ensures e.id < |s.added| && s.added[e.id] == e
  {
    assert e in multiset(s.queue) + multiset(s.started);
    assert e in s.added;
  }

  lemma {:induction false} InterruptKeepsInv(s: State, prio: nat)
    requires Inv(s)
    ensures Inv(Next(s, Interrupt(prio)))
  {
    var e := Event(prio, |s.added|);
    forall x | x in s.queue
      ensures x.id < e.id
    {
      QueuedIsOld(s, x);
    }
    InsertKeepsOrder(s.queue, e);
    InsertMembers(s.queue, e);
    assert ([Testing] + s.stack)[1..] == s.stack;
  }

  lemma {:induction false} TestKeepsInv(s: State)
    requires Inv(s) && Enabled(s, Test)
    ensures Inv(Next(s, Test))
  {
    var t := Next(s, Test);
    if s.queue != [] {
      assert t.stack[1..] == s.stack[1..];
    }
  }

  lemma {:induction false} LeaveKeepsInv(s: State)
    requires Inv(s) && Enabled(s, Take) && s.curr <= s.queue[0].prio
    ensures Inv(Next(s, Take))
  {
    var t := Next(s, Take);
    if t.stack == [] {
      assert Level(s.stack) == Level(s.stack[1..]) == IDLE_PRIORITY;
      forall x | x in s.queue
        ensures x.prio >= IDLE_PRIORITY
      {
        var i :| 0 <= i < |s.queue| && s.queue[i] == x;
        assert i > 0 ==> Before(s.queue[0], s.queue[i]);
      }
    }
  }

  lemma {:induction false} StartKeepsInv(s: State)
    requires Inv(s) && Enabled(s, Take) && s.queue[0].prio < s.curr
    ensures Inv(Next(s, Take))
  {
    var t := Next(s, Take);
    var e := s.queue[0];
    assert t.stack[1..] == s.stack[1..];
    assert s.queue == [e] + s.queue[1..];
    assert multiset(s.queue) == multiset{e} + multiset(t.queue);
    assert multiset(t.started) == multiset(s.started) + multiset{e};
    assert Running(t.stack) == [e] + Running(s.stack);
  }

  lemma {:induction false} TakeKeepsInv(s: State)
    requires Inv(s) && Enabled(s, Take)
    ensures Inv(Next(s, Take))
  {
    if s.curr <= s.queue[0].prio {
      LeaveKeepsInv(s);
    } else {
      StartKeepsInv(s);
    }
  }

  lemma {:induction false} FinishKeepsInv(s: State)
    requires Inv(s) && Enabled(s, Finish)
    ensures Inv(Next(s, Finish))
  {
    assert Next(s, Finish).stack[1..] == s.stack[1..];
  }

  lemma {:induction false} RestoreKeepsInv(s: State)
    requires Inv(s) && Enabled(s, Restore)
    ensures Inv(Next(s, Restore))
  {
    assert Next(s, Restore).stack[1..] == s.stack[1..];
  }

  lemma {:induction false} StepKeepsInv(s: State, step: Step)
    requires Inv(s) && Enabled(s, step)
    ensures Inv(Next(s, step))
  {
    match step {
      case Interrupt(prio) => InterruptKeepsInv(s, prio);
      case Test => TestKeepsInv(s);
      case Take => TakeKeepsInv(s);
      case Finish => FinishKeepsInv(s);
      case Restore => RestoreKeepsInv(s);
    }
  }

  // ---------------------------------------------------------------- runs

  predicate CanRun(s: State, steps: seq<Step>)
    decreases |steps|
  {
    steps == [] || (Enabled(s, steps[0]) && CanRun(Next(s, steps[0]), steps[1..]))
  }

  function Run(s: State, steps: seq<Step>): State
    requires CanRun(s, steps)
    decreases |steps|
  {
    if steps == [] then s else Run(Next(s, steps[0]), steps[1..])
  }

  lemma {:induction false} RunKeepsInv(s: State, steps: seq<Step>)
    requires Inv(s) && CanRun(s, steps)
    ensures Inv(Run(s, steps))
    decreases |steps|
  {
    if steps != [] {
      StepKeepsInv(s, steps[0]);
      RunKeepsInv(Next(s, steps[0]), steps[1..]);
    }
  }

  /** Handlers on the stack: more urgent the farther in, and `curr_priority` is the innermost level. */
  lemma {:induction false} HandlersAreNested(stack: seq<Point>, i: nat, j: nat)
    requires Nested(stack) && i < j < |stack| && stack[i].Handling? && (stack[j].Handling? || stack[j].Restoring?)
    ensures stack[i].ev.prio < stack[j].ev.prio && stack[i].prev <= stack[j].ev.prio
  {
    if i > 0 {
      HandlersAreNested(stack[1..], i - 1, j - 1);
    } else {
      LevelBelow(stack[1..], j - 1);
    }
  }

  /** The current level is at least as urgent as every level inside the stack. */
  lemma {:induction false} LevelBelow(stack: seq<Point>, j: nat)
    requires Nested(stack) && j < |stack| && (stack[j].Handling? || stack[j].Restoring?)
    ensures Level(stack) <= stack[j].ev.prio
  {
    if j > 0 {
      LevelBelow(stack[1..], j - 1);
    }
  }

  /** In every run, interrupts arriving anywhere: a handler starts only above the level it interrupts, is
      the most urgent and then the longest queued event, and starts once. */
  lemma {:induction false} StartsInOrder(steps: seq<Step>)
    requires CanRun(INITIAL, steps) && Enabled(Run(INITIAL, steps), Take)
    requires Run(INITIAL, steps).queue[0].prio < Run(INITIAL, steps).curr
    ensures var s := Run(INITIAL, steps); var e := s.queue[0];
      && (forall x :: x in s.queue && x != e ==> Before(e, x))
      && e !in s.started && e !in Running(s.stack)
      && (forall j :: 0 <= j < |s.stack| && s.stack[j].Handling? ==> e.prio < s.stack[j].ev.prio)
  {
    InitialInv();
    RunKeepsInv(INITIAL, steps);
    var s := Run(INITIAL, steps);
    var e := s.queue[0];
    forall x | x in s.queue && x != e
      ensures Before(e, x)
    {
      var i :| 0 <= i < |s.queue| && s.queue[i] == x;
    }
    StartedOnce(s, e);
    forall j | 0 <= j < |s.stack| && s.stack[j].Handling?
      ensures e.prio < s.stack[j].ev.prio
    {
      LevelBelow(s.stack, j);
    }
  }

  lemma {:induction false} AddedOnce(s: State, e: Event)
    requires forall i :: 0 <= i < |s.added| ==> s.added[i].id == i
    ensures multiset(s.added)[e] <= 1
  {
    CountByIndex(s.added, e, |s.added|);
    assert s.added[..|s.added|] == s.added;
  }

  lemma {:induction false} CountByIndex(l: seq<Event>, e: Event, n: nat)
    requires n <= |l| && forall i :: 0 <= i < |l| ==> l[i].id == i
    ensures multiset(l[..n])[e] <= (if e.id < n then 1 else 0)
  {
    if n > 0 {
      CountByIndex(l, e, n - 1);
      assert l[..n] == l[..n - 1] + [l[n - 1]];
    }
  }

  lemma {:induction false} StartedOnce(s: State, e: Event)
    requires Inv(s) && e in s.queue
    ensures e !in s.started && e !in Running(s.stack)
  {
    AddedOnce(s, e);
    assert multiset(s.queue)[e] >= 1;
    assert multiset(s.added)[e] == multiset(s.queue)[e] + multiset(s.started)[e];
    assert multiset(s.started)[e] == multiset(s.ended)[e] + multiset(Running(s.stack))[e];
  }

  /** When the outermost activation has returned, every event of number below 0x10000 has been handled
      exactly once and the level is the idle one. */
  lemma {:induction false} OutermostDrains(steps: seq<Step>, e: Event)
    requires CanRun(INITIAL, steps) && Run(INITIAL, steps).stack == []
    requires e in Run(INITIAL, steps).added && e.prio < IDLE_PRIORITY
    ensures var s := Run(INITIAL, steps); s.curr == IDLE_PRIORITY && e !in s.queue && multiset(s.ended)[e] == 1
  {
    InitialInv();
    RunKeepsInv(INITIAL, steps);
    var s := Run(INITIAL, steps);
    AddedOnce(s, e);
    assert multiset(s.added)[e] == multiset(s.queue)[e] + multiset(s.started)[e];
    assert multiset(s.started)[e] == multiset(s.ended)[e] + multiset(Running(s.stack))[e];
    assert e in multiset(s.added) && e !in multiset(s.queue);
  }

  // ---------------------------------------------------------------- the test outside the critical section

  const AFTER_TAKE := [Finish, Restore, Test, Take, Finish, Restore, Test]

  lemma {:induction false} InnerDrains(s: State)
    requires s.queue == [Event(1, 0)] && s.stack == [Handling(Event(0, 1), IDLE_PRIORITY), Taking] && s.curr == 0
    ensures CanRun(s, AFTER_TAKE) && Run(s, AFTER_TAKE).stack == [Taking] && Run(s, AFTER_TAKE).queue == []
  {
    var s6 := Next(s, Finish);
    var s7 := Next(s6, Restore);
    var s8 := Next(s7, Test);
    var s9 := Next(s8, Take);
    assert s9.queue == [] && s9.stack == [Handling(Event(1, 0), IDLE_PRIORITY), Taking];
    var s10 := Next(s9, Finish);
    var s11 := Next(s10, Restore);
    var s12 := Next(s11, Test);
    assert s12.stack == [Taking] && s12.queue == [];
    var rest := RunFirst(s11, Test, [], s12);
    rest := RunFirst(s10, Restore, rest, s12);
    rest := RunFirst(s9, Finish, rest, s12);
    rest := RunFirst(s8, Take, rest, s12);
    rest := RunFirst(s7, Test, rest, s12);
    rest := RunFirst(s6, Restore, rest, s12);
    rest := RunFirst(s, Finish, rest, s12);
  }

  /** An interrupt between the emptiness test and the critical section can empty the queue: the outer
      activation is then about to take from an empty queue. */
  lemma {:induction false} TakeFromEmpty()
    ensures var steps := [Interrupt(1)] + ([Test] + ([Interrupt(0)] + ([Test] + ([Take] + AFTER_TAKE))));
      CanRun(INITIAL, steps) && Run(INITIAL, steps).stack == [Taking] && Run(INITIAL, steps).queue == []
  {
    var s1 := Next(INITIAL, Interrupt(1));
    var s2 := Next(s1, Test);
    var s3 := Next(s2, Interrupt(0));
    assert s3.queue == [Event(0, 1), Event(1, 0)] && s3.stack == [Testing, Taking];
    var s4 := Next(s3, Test);
    var s5 := Next(s4, Take);
    InnerDrains(s5);
    var end := Run(s5, AFTER_TAKE);
    hide CanRun, Run;
    var rest := RunFirst(s4, Take, AFTER_TAKE, end);
    rest := RunFirst(s3, Test, rest, end);
    rest := RunFirst(s2, Interrupt(0), rest, end);
    rest := RunFirst(s1, Test, rest, end);
    rest := RunFirst(INITIAL, Interrupt(1), rest, end);
  }

  lemma {:induction false} RunFirst(s: State, step: Step, later: seq<Step>, t: State) returns (steps: seq<Step>)
    requires Enabled(s, step) && CanRun(Next(s, step), later) && Run(Next(s, step), later) == t
    ensures steps == [step] + later && CanRun(s, steps) && Run(s, steps) == t
  {
    steps := [step] + later;
  }

  /** An activation that no interrupt disturbs runs exactly the events more urgent than the level it found. */
  lemma {:induction false} Undisturbed(s: State) returns (steps: seq<Step>, k: nat)
    requires Ordered(s.queue) && s.stack != [] && s.stack[0].Testing?
    ensures CanRun(s, steps) && forall p :: Interrupt(p) !in steps
    ensures var t := Run(s, steps);
      k <= |s.queue| && t.stack == s.stack[1..] && t.curr == s.curr && t.queue == s.queue[k..]
    ensures forall i :: 0 <= i < |s.queue| ==> (i < k <==> s.queue[i].prio < s.curr)
    decreases |s.queue|
  {
    hide CanRun, Run;
    if s.queue == [] {
      CannotGoOn(Next(s, Test));
      steps := RunFirst(s, Test, [], Next(s, Test));
      k := 0;
    } else if s.curr <= s.queue[0].prio {
      var t := Next(Next(s, Test), Take);
      CannotGoOn(t);
      steps := RunFirst(Next(s, Test), Take, [], t);
      steps := RunFirst(s, Test, steps, t);
      k := 0;
    } else {
      var s1 := Next(s, Test);
      var s2 := Next(s1, Take);
      var s3 := Next(s2, Finish);
      var s4 := Next(s3, Restore);
      assert s4.stack == s.stack && s4.curr == s.curr;
      var later, n := Undisturbed(s4);
      steps := AndOn(s, later);
      k := n + 1;
      assert s.queue[k..] == s4.queue[n..];
    }
  }

  lemma {:induction false} CannotGoOn(t: State)
    ensures CanRun(t, []) && Run(t, []) == t
  {
  }

  lemma {:induction false} AndOn(s: State, later: seq<Step>) returns (steps: seq<Step>)
    requires s.queue != [] && s.stack != [] && s.stack[0].Testing? && s.queue[0].prio < s.curr
    requires CanRun(Next(Next(Next(Next(s, Test), Take), Finish), Restore), later)
    ensures CanRun(s, steps) && Run(s, steps) == Run(Next(Next(Next(Next(s, Test), Take), Finish), Restore), later)
    ensures steps == [Test] + ([Take] + ([Finish] + ([Restore] + later)))
  {
    hide CanRun, Run;
    var s1 := Next(s, Test);
    var s2 := Next(s1, Take);
    var s3 := Next(s2, Finish);
    var t := Run(Next(s3, Restore), later);
    steps := RunFirst(s3, Restore, later, t);
    steps := RunFirst(s2, Finish, steps, t);
    steps := RunFirst(s1, Take, steps, t);
    steps := RunFirst(s, Test, steps, t);
  }

  /** An interrupt that comes between an activation's test and its critical section leaves it an empty queue
      exactly when everything queued, the new event included, is more urgent than the current level. */
  lemma {:induction false} WhenTakeFindsNothing(s: State, prio: nat) returns (steps: seq<Step>)
    requires Inv(s) && s.stack != [] && s.stack[0].Taking?
    ensures CanRun(s, [Interrupt(prio)] + steps) && forall p :: Interrupt(p) !in steps
    ensures var t := Run(s, [Interrupt(prio)] + steps);
      t.stack == s.stack && (t.queue == [] <==> prio < s.curr && forall x :: x in s.queue ==> x.prio < s.curr)
  {
    hide CanRun, Run, Insert, Nested, Level, Running;
    InterruptKeepsInv(s, prio);
    var s1 := Next(s, Interrupt(prio));
    var e := Event(prio, |s.added|);
    InsertTakesIn(s.queue, e);
    var k;
    steps, k := Undisturbed(s1);
    var all := RunFirst(s, Interrupt(prio), steps, Run(s1, steps));
    assert k == |s1.queue| <==> forall x :: x in s1.queue ==> x.prio < s.curr by {
      if k < |s1.queue| {
        assert s1.queue[k] in s1.queue;
      }
    }
  }

  lemma {:induction false} InsertTakesIn(q: seq<Event>, e: Event)
    ensures forall x :: x in Insert(q, e) <==> x in q || x == e
  {
    InsertMembers(q, e);
    forall x
      ensures x in Insert(q, e) <==> x in q || x == e
    {
      assert x in Insert(q, e) <==> x in multiset(Insert(q, e));
    }
  }

  /** The activations of `base` are outermost, and lie still while others run inside them. */
  predicate On(s: State, base: seq<Point>) {
    |s.stack| >= |base| && s.stack[|s.stack| - |base|..] == base
  }

  ghost predicate Inside(s: State, steps: seq<Step>, base: seq<Point>)
    requires CanRun(s, steps)
    decreases |steps|
  {
    steps != [] ==> (|s.stack| > |base| || steps[0].Interrupt?) && Inside(Next(s, steps[0]), steps[1..], base)
  }

  /** `x` was queued when the activations of `s0` came to lie still, or has arrived since. */
  predicate Present(s0: State, s: State, x: Event)
    requires |s0.added| <= |s.added|
  {
    x in s0.queue || x in s.added[|s0.added|..]
  }

  /** What is queued was present, and what was present and is not more urgent than the level is still queued. */
  ghost predicate Kept(s0: State, s: State) {
    && On(s, s0.stack) && |s0.added| <= |s.added|
    && (forall x :: Present(s0, s, x) && x.prio >= s0.curr ==> x in s.queue)
    && (forall x :: x in s.queue ==> Present(s0, s, x))
  }

  lemma {:induction false} LevelInside(stack: seq<Point>, base: seq<Point>)
    requires Nested(stack) && |stack| >= |base| && stack[|stack| - |base|..] == base
    ensures Level(stack) <= Level(base)
    decreases |stack|
  {
    if |stack| > |base| {
      assert stack[1..][|stack[1..]| - |base|..] == base;
      LevelInside(stack[1..], base);
    }
  }

  lemma {:induction false} ArrivalKeeps(s0: State, s: State, prio: nat)
    requires Kept(s0, s)
    ensures Kept(s0, Next(s, Interrupt(prio)))
  {
    var e := Event(prio, |s.added|);
    var t := Next(s, Interrupt(prio));
    InsertTakesIn(s.queue, e);
    hide Insert;
    assert t.added[|s0.added|..] == s.added[|s0.added|..] + [e];
    assert t.stack[|t.stack| - |s0.stack|..] == s.stack[|s.stack| - |s0.stack|..];
  }

  lemma {:induction false} StepKeepsBase(s: State, step: Step, base: seq<Point>)
    requires On(s, base) && |s.stack| > |base| && Enabled(s, step) && !step.Interrupt?
    ensures On(Next(s, step), base) && Next(s, step).added == s.added
    ensures |Next(s, step).stack| == |base| ==>
      Next(s, step).queue == s.queue && !s.stack[0].Handling? && !s.stack[0].Restoring? && |s.stack| == |base| + 1 &&
      (s.queue == [] || s.curr <= s.queue[0].prio)
  {
  }

  /** The last activation inside leaves only when nothing queued is more urgent than the level of the others. */
  lemma {:induction false} LastLeaves(s0: State, s: State, step: Step)
    requires Inv(s0) && Inv(s) && On(s, s0.stack) && |s.stack| == |s0.stack| + 1 && !s.stack[0].Handling? && !s.stack[0].Restoring?
    requires s.queue == [] || s.curr <= s.queue[0].prio
    ensures forall x :: x in s.queue ==> x.prio >= s0.curr
  {
    assert s.stack[1..] == s0.stack;
    assert s.curr == s0.curr;
    forall x | x in s.queue
      ensures x.prio >= s0.curr
    {
      var i :| 0 <= i < |s.queue| && s.queue[i] == x;
      assert i == 0 || Before(s.queue[0], s.queue[i]);
    }
  }

  /** A step of an activation inside keeps what is not more urgent. */
  lemma {:induction false} StepKeepsPresent(s0: State, s: State, step: Step)
    requires Kept(s0, s) && s.curr <= s0.curr && |s.stack| > |s0.stack| && Enabled(s, step) && !step.Interrupt?
    ensures Kept(s0, Next(s, step))
  {
    var t := Next(s, step);
    StepKeepsBase(s, step, s0.stack);
    StepTakesUrgent(s, step);
    hide On, Next;
    assert forall x :: Present(s0, t, x) <==> Present(s0, s, x);
  }

  /** A step takes from the queue at most one event, more urgent than the current level. */
  lemma {:induction false} StepTakesUrgent(s: State, step: Step)
    requires Enabled(s, step) && !step.Interrupt?
    ensures forall x :: x in Next(s, step).queue ==> x in s.queue
    ensures forall x :: x in s.queue && x.prio >= s.curr ==> x in Next(s, step).queue
  {
    if step == Take {
      assert s.queue == [s.queue[0]] + s.queue[1..];
    }
  }

  ghost predicate NoneMoreUrgent(s0: State, s: State) {
    |s.stack| == |s0.stack| ==> forall x :: x in s.queue ==> x.prio >= s0.curr
  }

  lemma {:induction false} InsideStep(s0: State, s: State, step: Step)
    requires Inv(s0) && Inv(s) && Kept(s0, s) && Enabled(s, step) && (|s.stack| > |s0.stack| || step.Interrupt?)
    ensures Kept(s0, Next(s, step)) && NoneMoreUrgent(s0, Next(s, step))
  {
    if step.Interrupt? {
      ArrivalKeeps(s0, s, step.prio);
      assert |Next(s, step).stack| > |s.stack|;
    } else {
      LevelsInside(s0, s);
      StepKeepsPresent(s0, s, step);
      StepKeepsBase(s, step, s0.stack);
      hide Kept, Inv, On;
      if |Next(s, step).stack| == |s0.stack| {
        LastLeaves(s0, s, step);
      }
    }
  }

  lemma {:induction false} LevelsInside(s0: State, s: State)
    requires Inv(s0) && Inv(s) && On(s, s0.stack)
    ensures s.curr <= s0.curr
  {
    LevelInside(s.stack, s0.stack);
  }

  lemma {:induction false} RunKeepsPresent(s0: State, s: State, steps: seq<Step>)
    requires Inv(s0) && Inv(s) && Kept(s0, s) && CanRun(s, steps) && Inside(s, steps, s0.stack)
    ensures Kept(s0, Run(s, steps)) && (steps != [] ==> NoneMoreUrgent(s0, Run(s, steps)))
    decreases |steps|
  {
    hide Inv, Next, Kept, NoneMoreUrgent;
    if steps != [] {
      StepKeepsInv(s, steps[0]);
      InsideStep(s0, s, steps[0]);
      RunKeepsPresent(s0, Next(s, steps[0]), steps[1..]);
    }
  }

  /** However many interrupts come, nested in any way, while an activation is between its test and its critical section:
      when it goes on, exactly the events present that are not more urgent than the level are queued.  So it
      finds nothing if and only if everything present was more urgent. */
  lemma {:induction false} WhatTakeFinds(s0: State, steps: seq<Step>)
    requires Inv(s0) && s0.stack != [] && s0.stack[0].Taking? && CanRun(s0, steps) && Inside(s0, steps, s0.stack)
    requires steps != [] && Run(s0, steps).stack == s0.stack
    ensures var t := Run(s0, steps);
      && |s0.added| <= |t.added|
      && (forall x :: x in t.queue <==> Present(s0, t, x) && x.prio >= s0.curr)
      && (t.queue == [] <==> forall x :: Present(s0, t, x) ==> x.prio < s0.curr)
  {
    var t := Run(s0, steps);
    assert Kept(s0, s0) by {
      assert s0.added[|s0.added|..] == [];
    }
    hide Inv, Next;
    RunKeepsPresent(s0, s0, steps);
    if t.queue != [] {
      assert t.queue[0] in t.queue;
    }
  }

  /** No interrupt comes while the innermost activation is between its test and its critical section. */
  predicate Quiet(s: State, steps: seq<Step>)
    requires CanRun(s, steps)
    decreases |steps|
  {
    steps != [] ==>
      !(steps[0].Interrupt? && s.stack != [] && s.stack[0].Taking?) && Quiet(Next(s, steps[0]), steps[1..])
  }

  /** Only the innermost activation can be past its test, and then there is something to take. */
  ghost predicate TakesFind(s: State) {
    forall i :: 0 <= i < |s.stack| && s.stack[i].Taking? ==> i == 0 && s.queue != []
  }

  lemma {:induction false} StepKeepsTakesFind(s: State, step: Step)
    requires TakesFind(s) && Enabled(s, step) && !(step.Interrupt? && s.stack != [] && s.stack[0].Taking?)
    ensures TakesFind(Next(s, step))
  {
  }

  /** Without such an interrupt, what an activation takes from is never empty. */
  lemma {:induction false} QuietTakesFindSomething(s: State, steps: seq<Step>)
    requires CanRun(s, steps) && Quiet(s, steps) && TakesFind(s)
    ensures TakesFind(Run(s, steps))
    decreases |steps|
  {
    hide TakesFind, Next;
    if steps != [] {
      StepKeepsTakesFind(s, steps[0]);
      QuietTakesFindSomething(Next(s, steps[0]), steps[1..]);
    }
  }

  // ---------------------------------------------------------------- the code

  /** What the critical section leads to: the loop is left, the handler of an event is called, or whatever the
      list head holds for a handler. */
  datatype Taken = Leaves | Starts(ev: Event, prev: nat) | CallsJunk(prev: nat)

  class EventQueue {
    var queue: seq<Event>
    var curr: nat
    var arrivals: nat

    constructor ()
      ensures queue == [] && curr == IDLE_PRIORITY && arrivals == 0
    {
      queue, curr, arrivals := [], IDLE_PRIORITY, 0;
    }

    /** `add_irq_event`: the list is walked to the first entry of larger number. */
    method AddIrqEvent(prio: nat)
      modifies this
      ensures queue == Insert(old(queue), Event(prio, old(arrivals))) && arrivals == old(arrivals) + 1 && curr == old(curr)
    {
      var e := Event(prio, arrivals);
      arrivals := arrivals + 1;
      var i := 0;
      while i < |queue|
        invariant i <= |queue| && queue == old(queue) && curr == old(curr) && arrivals == old(arrivals) + 1
        invariant Insert(queue, e) == queue[..i] + Insert(queue[i..], e)
      {
        if queue[i].prio > prio {
          break;
        }
        InsertStep(queue, e, i);
        i := i + 1;
      }
      assert Insert(queue[i..], e) == [e] + queue[i..];
      assert queue[..i] + ([e] + queue[i..]) == queue[..i] + [e] + queue[i..];
      queue := queue[..i] + [e] + queue[i..];
    }

    /** The critical section of `run_irq_event`: the head of the queue, if it is more urgent than the current
        level, which it then becomes; `prev` is to be put back when its handler has returned.  With an empty queue
        the list head itself is taken for an event: its memory, which nothing has written, holds `junk` for a
        priority. */
    method TakeNext(junk: nat) returns (taken: Taken)
      modifies this
      ensures old(queue) != [] && old(queue)[0].prio < old(curr) ==>
        taken == Starts(old(queue)[0], old(curr)) && queue == old(queue)[1..] && curr == old(queue)[0].prio
      ensures old(queue) == [] && junk < old(curr) ==> taken == CallsJunk(old(curr)) && queue == [] && curr == junk
      ensures (if old(queue) == [] then junk else old(queue)[0].prio) >= old(curr) ==>
        taken == Leaves && queue == old(queue) && curr == old(curr)
      ensures arrivals == old(arrivals)
    {
      var prio := if queue == [] then junk else queue[0].prio;
      if curr <= prio {
        return Leaves;
      }
      var prev := curr;
      curr := prio;
      if queue == [] {
        return CallsJunk(prev);
      }
      taken := Starts(queue[0], prev);
      queue := queue[1..];
    }
  }

  lemma {:induction false} InsertStep(q: seq<Event>, e: Event, i: nat)
    requires i < |q| && q[i].prio <= e.prio && Insert(q, e) == q[..i] + Insert(q[i..], e)
    ensures Insert(q, e) == q[..i + 1] + Insert(q[i + 1..], e)
  {
    assert q[i..][1..] == q[i + 1..] && q[..i + 1] == q[..i] + [q[i]];
  }
}
