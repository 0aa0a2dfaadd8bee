/** The timer queue on its doubly linked circular list with a sentinel head. */
module TimerList {
  import opened Lists
  import opened Timers

  class Node {
    var next: Node?
    var prev: Node?
    const task: Task

    constructor (task: Task)
      ensures this.task == task
    {
      this.task := task;
      next, prev := null, null;
    }
  }

  function Tasks(l: seq<Node>): seq<Task> {
    seq(|l|, i requires 0 <= i < |l| => l[i].task)
  }

  class TimerQueue {
    const head: Node
    ghost var ring: seq<Node>  // the head and then the linked nodes in order
    ghost var nodes: set<Node>  // every node ever linked
    var cmp: nat
    var added: nat

    /** `next` and `prev` go round the ring in opposite directions. */
    ghost predicate Linked()
      reads this, nodes
    {
      && |ring| > 0 && ring[0] == head && Distinct(ring)
      && (forall i :: 0 <= i < |ring| ==> ring[i] in nodes)
      && (forall i {:trigger ring[i].next} :: 0 <= i < |ring| - 1 ==> ring[i].next == ring[i + 1])
      && (forall i {:trigger ring[i].prev} :: 1 <= i < |ring| ==> ring[i].prev == ring[i - 1])
      && ring[|ring| - 1].next == head && ring[0].prev == ring[|ring| - 1]
    }

    ghost function Queue(): seq<Task>
      reads this
    {
      if ring == [] then [] else Tasks(ring[1..])
    }

    /** The node at `k`, counting the head as the one after the last. */
    ghost function At(k: nat): Node
      reads this
      requires |ring| > 0
    {
      if k < |ring| then ring[k] else head
    }

    lemma {:induction false} FirstNode()
      requires Linked()
      ensures head.next == head <==> |ring| == 1
      ensures |ring| > 1 ==> head.next == ring[1] && Queue()[0] == ring[1].task
    {
      if |ring| > 1 {
        assert ring[0].next == ring[1] && ring[0] != ring[1];
      }
    }

    constructor ()
      ensures Linked() && Queue() == [] && fresh(nodes) && added == 0
    {
      head := new Node(Task(0, 0));
      cmp, added := 0, 0;
      new;
      head.next, head.prev := head, head;
      ring := [head];
      nodes := {head};
    }

    /** `__list_add` in front of the node at `k`. */
    method ListAdd(node: Node, prev: Node, next: Node, ghost k: nat)
      requires Linked() && node !in nodes && 1 <= k <= |ring| && prev == ring[k - 1] && next == At(k)
      modifies this`ring, this`nodes, nodes, node
      ensures Linked() && ring == old(ring[..k]) + [node] + old(ring[k..]) && nodes == old(nodes) + {node}
    {
      next.prev := node;
      node.next := next;
      node.prev := prev;
      prev.next := node;
      nodes := nodes + {node};
      ring := ring[..k] + [node] + ring[k..];
    }

    /** `list_del_entry`. */
    method ListDel(node: Node, ghost k: nat)
      requires Linked() && 0 < k < |ring| && node == ring[k]
      modifies this`ring, nodes
      ensures Linked() && ring == old(ring[..k]) + old(ring[k + 1..])
    {
      assert node.prev == ring[k - 1] && node.next == At(k + 1);
      node.next.prev := node.prev;
      node.prev.next := node.next;
      ring := ring[..k] + ring[k + 1..];
    }

    /** The loop of `add_timer_task`: the first node whose task expires after `expire`, or the head. */
    method FindLater(expire: nat) returns (curr: Node, ghost k: nat)
      requires Linked()
      ensures curr == head || curr.task.expire > expire
      ensures 1 <= k <= |ring| && curr == At(k) && curr.prev == ring[k - 1]
      ensures forall j :: 0 <= j < k - 1 ==> Queue()[j].expire <= expire
      ensures k < |ring| ==> Queue()[k - 1].expire > expire
    {
      curr := head.next;
      k := 1;
      assert head == ring[0];
      while curr != head
        invariant 1 <= k <= |ring| && curr == At(k)
        invariant forall j :: 0 <= j < k - 1 ==> Queue()[j].expire <= expire
        decreases |ring| - k
      {
        assert curr == ring[k] && Queue()[k - 1] == curr.task;
        if curr.task.expire > expire {
          break;
        }
        assert curr.next == At(k + 1);
        curr := curr.next;
        k := k + 1;
      }
    }

    /** `add_timer_task`: the new task is linked in front of the first that expires later, and the comparator
        set to the earliest expiry. */
    method AddTimerTask(now: nat, value: nat)
      requires Linked()
      modifies this, nodes
      ensures Linked() && fresh(nodes - old(nodes))
      ensures Queue() == Insert(old(Queue()), Task(now + value, old(added))) && added == old(added) + 1
      ensures cmp == Queue()[0].expire
    {
      hide Distinct, Insert;
      var node := new Node(Task(now + value, added));
      var curr, k := FindLater(node.task.expire);
      InsertAt(Queue(), node.task, k - 1);
      LinkedInTasks(ring, node, k);
      ListAdd(node, curr.prev, curr, k);
      added := added + 1;
      assert head.next == ring[0].next == ring[1] && Queue()[0] == ring[1].task;
      cmp := head.next.task.expire;
    }

    /** The comparator is set to the earliest expiry, or `far` ahead when no task is left. */
    method Reprogram(now: nat, far: nat)
      requires Linked()
      modifies `cmp
      ensures cmp == if Queue() == [] then now + far else Queue()[0].expire
    {
      FirstNode();
      if head.next == head {
        cmp := now + far;
      } else {
        cmp := head.next.task.expire;
      }
    }

    /** `timer_handler` and `do_timer_task`: the first task is unlinked, its callback adds tasks, and the
        comparator is set anew. */
    method TimerHandler(now: nat, values: seq<nat>, far: nat)
      requires Linked()
      modifies this, nodes
      ensures Linked() && fresh(nodes - old(nodes))
      ensures var s := Next(State(old(Queue()), old(cmp), now, old(added), []), Fire(values, far));
        Queue() == s.queue && cmp == s.cmp && added == s.added
      ensures old(Queue()) != [] ==>
        Joined(old(Queue())[1..], Queue(), now, old(added), values) && added == old(added) + |values|
      ensures old(Queue()) == [] ==> Queue() == [] && added == old(added)
      ensures cmp == if Queue() == [] then now + far else Queue()[0].expire
    {
      hide Joined, AddTasks, Distinct;
      FireLeaves(State(Queue(), cmp, now, added, []), values, far);
      FirstNode();
      if head.next == head {
        cmp := now + far;
        return;
      }
      ghost var queue := Queue();
      ghost var before := State(queue, cmp, now, added, []);
      FireOne(before, values, far);
      var task := head.next;
      ListDel(task, 1);
      assert Queue() == queue[1..];
      RunCallback(now, values, queue[0]);
      Reprogram(now, far);
    }

    /** The callback, as far as the queue goes: it adds tasks. */
    method RunCallback(now: nat, values: seq<nat>, ghost first: Task)
      requires Linked()
      modifies this, nodes
      ensures Linked() && fresh(nodes - old(nodes))
      ensures State(Queue(), cmp, now, added, [first]) ==
        AddTasks(State(old(Queue()), old(cmp), now, old(added), [first]), values)
      ensures Joined(old(Queue()), Queue(), now, old(added), values)
      ensures added == old(added) + |values|
    {
      ghost var before := State(Queue(), cmp, now, added, [first]);
      AddsExactly(before, values);
      hide Joined, Insert, AddTasks, Linked, Queue;
      AddTasksFrom(before, values, 0);
      var i := 0;
      while i < |values|
        invariant i <= |values| && Linked() && fresh(nodes - old(nodes))
        invariant AddTasks(State(Queue(), cmp, now, added, [first]), values[i..]) == AddTasks(before, values)
      {
        AddTasksFrom(State(Queue(), cmp, now, added, [first]), values, i);
        InsertTakesIn(Queue(), Task(now + values[i], added));
        AddTimerTask(now, values[i]);
        i := i + 1;
      }
      AddTasksFrom(State(Queue(), cmp, now, added, [first]), values, i);
    }
  }

  lemma {:induction false} AddTasksFrom(s: State, values: seq<nat>, i: nat)
    requires i <= |values|
    ensures i < |values| ==> AddTasks(s, values[i..]) == AddTasks(AddTask(s, values[i]), values[i + 1..])
    ensures AddTasks(s, values[|values|..]) == s && values[0..] == values
  {
    if i < |values| {
      assert values[i..][1..] == values[i + 1..];
    }
  }

  lemma {:induction false} FireOne(s: State, values: seq<nat>, far: nat)
    requires s.queue != [] && s.fired == []
    ensures Next(s, Fire(values, far)) ==
      Program(AddTasks(State(s.queue[1..], s.cmp, s.now, s.added, [s.queue[0]]), values), far)
  {
    assert s.fired + [s.queue[0]] == [s.queue[0]];
  }

  lemma {:induction false} InsertAt(q: seq<Task>, t: Task, k: nat)
    requires k <= |q| && (forall j :: 0 <= j < k ==> q[j].expire <= t.expire) && (k < |q| ==> q[k].expire > t.expire)
    ensures Insert(q, t) == q[..k] + [t] + q[k..]
  {
    if k > 0 {
      InsertAt(q[1..], t, k - 1);
      assert q[1..][..k - 1] == q[..k][1..] && q[1..][k - 1..] == q[k..];
    }
  }

  lemma {:induction false} LinkedInTasks(ring: seq<Node>, node: Node, k: nat)
    requires 1 <= k <= |ring|
    ensures Tasks((ring[..k] + [node] + ring[k..])[1..]) == Tasks(ring[1..])[..k - 1] + [node.task] + Tasks(ring[1..])[k - 1..]
  {
  }
}
