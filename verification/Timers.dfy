/** The timer queue as a machine: tasks in order of expiry, and the comparator of the timer. */
module Timers {

  /** `id` counts additions. */
  datatype Task = Task(expire: nat, id: nat)

  /** `cmp` is the comparator: the timer interrupt is pending while `now` has reached it. */
  datatype State = State(queue: seq<Task>, cmp: nat, now: nat, added: nat, fired: seq<Task>)

  /** In front of the first task that expires later. */
  function Insert(q: seq<Task>, t: Task): seq<Task> {
    if q == [] || q[0].expire > t.expire then [t] + q else [q[0]] + Insert(q[1..], t)
  }

  predicate Before(a: Task, b: Task) {
    a.expire < b.expire || (a.expire == b.expire && a.id < b.id)
  }

  ghost predicate Ordered(q: seq<Task>) {
    forall i, j :: 0 <= i < j < |q| ==> Before(q[i], q[j])
  }

  lemma {:induction false} InsertMembers(q: seq<Task>, t: Task)
    ensures multiset(Insert(q, t)) == multiset(q) + multiset{t}
  {
    if q != [] && q[0].expire <= t.expire {
      InsertMembers(q[1..], t);
      assert q == [q[0]] + q[1..];
    }
  }

  /** A new task keeps the queue sorted by expiry, and by age among equals. */
  lemma {:induction false} InsertKeepsOrder(q: seq<Task>, t: Task)
    requires Ordered(q) && forall x :: x in q ==> x.id < t.id
    ensures Ordered(Insert(q, t))
  {
    if q != [] && q[0].expire <= t.expire {
      InsertKeepsOrder(q[1..], t);
      InsertMembers(q[1..], t);
      assert q[0] in q;
      forall x | x in Insert(q[1..], t)
        ensures Before(q[0], x)
      {
        assert x in multiset(Insert(q[1..], t));
        if x != t {
          assert x in q[1..];
        }
      }
    } else {
      assert forall j :: 0 <= j < |q| ==> q[j] in q;
    }
  }

  // ---------------------------------------------------------------- steps

  /** Time passes, a task is added `value` ticks ahead, or the pending interrupt is handled; the callback
      of the task then adds tasks `values` ticks ahead. `far` is what the comparator is set ahead when
      no task is left. */
  datatype Step = Pass(ticks: nat) | Add(value: nat) | Fire(values: seq<nat>, far: nat)

  function AddTask(s: State, value: nat): State {
    var q := Insert(s.queue, Task(s.now + value, s.added));
    s.(queue := q, added := s.added + 1, cmp := if q == [] then s.cmp else q[0].expire)
  }

  function AddTasks(s: State, values: seq<nat>): State
    decreases |values|
  {
    if values == [] then s else AddTasks(AddTask(s, values[0]), values[1..])
  }

  function Program(s: State, far: nat): State {
    s.(cmp := if s.queue == [] then s.now + far else s.queue[0].expire)
  }

  predicate Enabled(s: State, step: Step) {
    step.Fire? ==> s.now >= s.cmp
  }

  function Next(s: State, step: Step): State {
    match step
    case Pass(ticks) => s.(now := s.now + ticks)
    case Add(value) => AddTask(s, value)
    case Fire(values, far) =>
      if s.queue == [] then Program(s, far)
      else Program(AddTasks(s.(queue := s.queue[1..], fired := s.fired + [s.queue[0]]), values), far)
  }

  /** Sorted; the comparator is the earliest expiry; everything fired had expired, in order of expiry, and
      not before anything still queued. */
  ghost predicate Inv(s: State) {
    Sorted(s) && (s.queue != [] ==> s.cmp == s.queue[0].expire)
  }

  ghost predicate Sorted(s: State) {
    && Ordered(s.queue)
    && (forall t :: t in s.queue ==> t.id < s.added)
    && (forall i, j :: 0 <= i < j < |s.fired| ==> s.fired[i].expire <= s.fired[j].expire)
    && (forall i :: 0 <= i < |s.fired| ==> s.fired[i].expire <= s.now)
    && (forall i, t :: 0 <= i < |s.fired| && t in s.queue ==> s.fired[i].expire <= t.expire)
  }

  lemma {:induction false} InsertTakesIn(q: seq<Task>, t: Task)
    ensures Insert(q, t) != [] && forall x :: x in Insert(q, t) <==> x in q || x == t
  {
    InsertMembers(q, t);
    forall x
      ensures x in Insert(q, t) <==> x in q || x == t
    {
      assert x in Insert(q, t) <==> x in multiset(Insert(q, t));
    }
  }

  lemma {:induction false} AddKeeps(s: State, value: nat)
    requires Sorted(s)
    ensures Inv(AddTask(s, value)) && AddTask(s, value).now == s.now && AddTask(s, value).fired == s.fired
  {
    var t := Task(s.now + value, s.added);
    InsertKeepsOrder(s.queue, t);
    hide Ordered, Insert;
    InsertTakesIn(s.queue, t);
  }

  lemma {:induction false} AddsKeep(s: State, values: seq<nat>)
    requires Sorted(s)
    ensures Sorted(AddTasks(s, values)) && AddTasks(s, values).now == s.now && AddTasks(s, values).fired == s.fired
    decreases |values|
  {
    if values != [] {
      AddKeeps(s, values[0]);
      AddsKeep(AddTask(s, values[0]), values[1..]);
    }
  }

  lemma {:induction false} PopKeepsSorted(s: State)
    requires Inv(s) && s.queue != [] && s.now >= s.cmp
    ensures Sorted(s.(queue := s.queue[1..], fired := s.fired + [s.queue[0]]))
  {
    var n := s.(queue := s.queue[1..], fired := s.fired + [s.queue[0]]);
    forall t | t in n.queue
      ensures t in s.queue && s.queue[0].expire <= t.expire
    {
      var j :| 0 <= j < |n.queue| && n.queue[j] == t;
      assert Before(s.queue[0], s.queue[j + 1]);
    }
    assert s.queue[0] in s.queue;
  }

  /** Under any additions, passing time, fires and callbacks that add tasks: no task fires early, fired
      expiries never decrease, and the comparator is the earliest expiry. */
  lemma {:induction false} StepKeepsInv(s: State, step: Step)
    requires Inv(s) && Enabled(s, step)
    ensures Inv(Next(s, step))
    ensures step.Fire? && s.queue != [] ==> |Next(s, step).fired| > |s.fired| && s.queue[0].expire <= s.now
  {
    match step {
      case Pass(_) =>
      case Add(value) => AddKeeps(s, value);
      case Fire(values, far) =>
        if s.queue != [] {
          PopKeepsSorted(s);
          AddsKeep(s.(queue := s.queue[1..], fired := s.fired + [s.queue[0]]), values);
        }
    }
  }

  predicate CanRun(s: State, steps: seq<Step>)
    decreases |steps|
  {
    steps == [] || (Enabled(s, steps[0]) && CanRun(Next(s, steps[0]), steps[1..]))
  }

  function Run(s: State, steps: seq<Step>): State
    requires CanRun(s, steps)
    decreases |steps|
  {
    if steps == [] then s else Run(Next(s, steps[0]), steps[1..])
  }

  /** The tasks that a callback adds at `now`, `values` ticks ahead, when `first` have been added before. */
  function NewTasks(now: nat, first: nat, values: seq<nat>): seq<Task> {
    seq(|values|, i requires 0 <= i < |values| => Task(now + values[i], first + i))
  }

  /** `after` holds what `before` held, and exactly those tasks. */
  ghost predicate Joined(before: seq<Task>, after: seq<Task>, now: nat, first: nat, values: seq<nat>) {
    multiset(after) == multiset(before) + multiset(NewTasks(now, first, values))
  }

  lemma {:induction false} JoinedNone(q: seq<Task>, now: nat, first: nat)
    ensures Joined(q, q, now, first, [])
  {
    assert NewTasks(now, first, []) == [];
  }

  lemma {:induction false} NewTasksStep(now: nat, first: nat, values: seq<nat>)
    requires values != []
    ensures multiset(NewTasks(now, first, values)) ==
      multiset{Task(now + values[0], first)} + multiset(NewTasks(now, first + 1, values[1..]))
  {
    assert NewTasks(now, first, values) == [Task(now + values[0], first)] + NewTasks(now, first + 1, values[1..]);
  }

  lemma {:induction false} JoinedOne(q: seq<Task>, after: seq<Task>, now: nat, first: nat, values: seq<nat>)
    requires values != [] && Joined(Insert(q, Task(now + values[0], first)), after, now, first + 1, values[1..])
    ensures Joined(q, after, now, first, values)
  {
    hide Insert, NewTasks;
    InsertMembers(q, Task(now + values[0], first));
    NewTasksStep(now, first, values);
  }

  /** Adding tasks adds exactly those, and counts them. */
  lemma {:induction false} AddsExactly(s: State, values: seq<nat>)
    ensures var t := AddTasks(s, values);
      Joined(s.queue, t.queue, s.now, s.added, values) && t.added == s.added + |values| && t.fired == s.fired && t.now == s.now
    decreases |values|
  {
    hide Joined, Insert;
    if values == [] {
      JoinedNone(s.queue, s.now, s.added);
    } else {
      AddsExactly(AddTask(s, values[0]), values[1..]);
      JoinedOne(s.queue, AddTasks(s, values).queue, s.now, s.added, values);
    }
  }

  /** What a fire leaves: the first task has fired, the others are queued together with exactly those that its callback
      adds, and the comparator is the earliest expiry; or `far` ahead when nothing is queued. */
  lemma {:induction false} FireLeaves(s: State, values: seq<nat>, far: nat)
    ensures var t := Next(s, Fire(values, far));
      && (s.queue != [] ==>
            && t.fired == s.fired + [s.queue[0]] && t.added == s.added + |values|
            && Joined(s.queue[1..], t.queue, s.now, s.added, values))
      && (s.queue == [] ==> t.queue == [] && t.added == s.added && t.fired == s.fired)
      && t.now == s.now && t.cmp == if t.queue == [] then s.now + far else t.queue[0].expire
  {
    hide Joined, AddTasks;
    if s.queue != [] {
      AddsExactly(s.(queue := s.queue[1..], fired := s.fired + [s.queue[0]]), values);
    }
  }

  /** From `s` to `t` no task is lost and none is made up: what was queued is still queued or has fired, what
      has fired stays fired, in its place, and tasks queued or fired grow by exactly the tasks added. */
  ghost predicate Keeps(s: State, t: State) {
    && s.fired <= t.fired && s.added <= t.added
    && (forall x :: x in s.queue ==> x in t.queue || x in t.fired)
    && |t.queue| + |t.fired| - t.added == |s.queue| + |s.fired| - s.added
  }

  lemma {:induction false} InsertGrows(q: seq<Task>, t: Task)
    ensures |Insert(q, t)| == |q| + 1
  {
    if q != [] && q[0].expire <= t.expire {
      InsertGrows(q[1..], t);
    }
  }

  lemma {:induction false} AddTasksKeep(s: State, values: seq<nat>)
    ensures Keeps(s, AddTasks(s, values)) && AddTasks(s, values).fired == s.fired
    decreases |values|
  {
    if values != [] {
      var t := Task(s.now + values[0], s.added);
      InsertGrows(s.queue, t);
      InsertTakesIn(s.queue, t);
      AddTasksKeep(AddTask(s, values[0]), values[1..]);
    }
  }

  lemma {:induction false} StepKeepsTasks(s: State, step: Step)
    requires Enabled(s, step)
    ensures Keeps(s, Next(s, step))
  {
    match step {
      case Pass(_) =>
      case Add(value) =>
        AddTasksKeep(s, [value]);
        assert AddTasks(s, [value]) == AddTask(s, value);
      case Fire(values, far) =>
        if s.queue != [] {
          var popped := s.(queue := s.queue[1..], fired := s.fired + [s.queue[0]]);
          AddTasksKeep(popped, values);
          hide AddTasks;
          assert s.queue == [s.queue[0]] + s.queue[1..];
          assert s.queue[0] == popped.fired[|s.fired|];
        }
    }
  }

  /** The invariant holds in every run, and every task is accounted for. */
  lemma {:induction false} RunKeepsInv(s: State, steps: seq<Step>)
    requires Inv(s) && CanRun(s, steps)
    ensures Inv(Run(s, steps)) && Keeps(s, Run(s, steps))
    decreases |steps|
  {
    if steps != [] {
      StepKeepsInv(s, steps[0]);
      StepKeepsTasks(s, steps[0]);
      hide Inv, Next;
      RunKeepsInv(Next(s, steps[0]), steps[1..]);
    }
  }
}
