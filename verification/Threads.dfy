/** The thread table as the code updates it. */
module Threads {
  import opened Options
  import opened Lists
  import opened Scheduler

  /** The queue holds slot numbers, each once. */
  ghost predicate Small(t: Table) {
    Distinct(t.queue) && forall j :: 0 <= j < |t.queue| ==> t.queue[j] < SLOTS
  }

  lemma {:induction false} QueueInTable(t: Table)
    requires Valid(t)
    ensures Small(t)
  {
    assert forall j :: 0 <= j < |t.queue| ==> t.queue[j] in t.queue;
  }

  /** The slots once the first `done` queue entries have been looked at. */
  ghost predicate SlotsAfter(t: Table, status: seq<Status>, done: nat)
    requires done <= |t.queue| && Small(t)
  {
    && |status| == SLOTS
    && (forall p: nat :: p < SLOTS && St(t, p) != Zombie ==> status[p] == St(t, p))
    && (forall j :: 0 <= j < done && St(t, t.queue[j]) == Zombie ==> status[t.queue[j]] == Unused)
    && (forall j :: done <= j < |t.queue| ==> status[t.queue[j]] == St(t, t.queue[j]))
  }

  lemma {:induction false} SlotsAfterStep(t: Table, status: seq<Status>, done: nat)
    requires Small(t) && done < |t.queue|
    requires SlotsAfter(t, status, done)
    ensures status[t.queue[done]] == St(t, t.queue[done])
    ensures St(t, t.queue[done]) == Zombie ==> SlotsAfter(t, status[t.queue[done] := Unused], done + 1)
    ensures St(t, t.queue[done]) != Zombie ==> SlotsAfter(t, status, done + 1)
  {
  }

  lemma {:induction false} SlotsAfterAll(t: Table, status: seq<Status>)
    requires Valid(t) && Small(t) && SlotsAfter(t, status, |t.queue|)
    ensures status == Reap(t).status
  {
    forall p: nat | p < SLOTS
      ensures status[p] == Reap(t).status[p]
    {
      if St(t, p) == Zombie {
        assert p in t.queue;
      }
    }
  }

  /** The queue and the slots after `done` of the entries have been looked at, `i` of them kept. */
  ghost predicate Reaping(t: Table, queue: seq<nat>, status: seq<Status>, i: nat, done: nat)
    requires Small(t)
  {
    && i <= |queue| && done <= |t.queue| && queue[i..] == t.queue[done..]
    && queue[..i] + NonZombies(t, t.queue[done..]) == NonZombies(t, t.queue)
    && SlotsAfter(t, status, done)
  }

  lemma {:induction false} ReapStarts(t: Table)
    requires |t.status| == SLOTS && Small(t)
    ensures Reaping(t, t.queue, t.status, 0, 0)
  {
    hide NonZombies;
    assert t.queue[0..] == t.queue && t.queue[..0] == [];
  }

  lemma {:induction false} ReapStep(t: Table, queue: seq<nat>, status: seq<Status>, i: nat, done: nat)
    requires Small(t) && Reaping(t, queue, status, i, done) && i < |queue|
    ensures done < |t.queue| && queue[i] < |status|
    ensures status[queue[i]] == Zombie ==> Reaping(t, queue[..i] + queue[i + 1..], status[queue[i] := Unused], i, done + 1)
    ensures status[queue[i]] != Zombie ==> Reaping(t, queue, status, i + 1, done + 1)
  {
    var p := t.queue[done];
    var rest := t.queue[done + 1..];
    assert t.queue[done..] == [p] + rest && queue[i..][0] == queue[i] == p && queue[i..][1..] == queue[i + 1..] == rest;
    NonZombiesStep(t, t.queue[done..]);
    SlotsAfterStep(t, status, done);
    hide NonZombies, SlotsAfter;
    if status[p] == Zombie {
      var q := queue[..i] + queue[i + 1..];
      assert q[..i] == queue[..i] && q[i..] == rest;
    } else {
      assert queue[..i + 1] == queue[..i] + [p];
      assert queue[..i + 1] + NonZombies(t, rest) == queue[..i] + ([p] + NonZombies(t, rest));
    }
  }

  lemma {:induction false} ReapEnds(t: Table, r: Table)
    requires Valid(t) && Small(t) && St(t, t.curr) != Zombie
    requires Reaping(t, r.queue, r.status, |r.queue|, |t.queue|) && r.curr == t.curr && r.nxt == t.nxt
    ensures r == Reap(t) && Valid(r)
  {
    ReapKeepsValid(t);
    NoNonZombies(t);
    assert t.queue[|t.queue|..] == [] && r.queue[..|r.queue|] == r.queue;
    SlotsAfterAll(t, r.status);
  }

  lemma {:induction false} NoNonZombies(t: Table)
    ensures NonZombies(t, []) == []
  {
  }

  class ThreadTable {
    const status: array<Status>
    var queue: seq<nat>
    var curr: nat
    var nxt: nat

    ghost function View(): Table
      reads this, status
    {
      Table(status[..], queue, curr, nxt)
    }

    ghost predicate Consistent()
      reads this, status
    {
      Valid(View())
    }

    /** `init_threads`: every slot unused, then idle is created in slot 0 and is the current thread. */
    constructor ()
      ensures Consistent() && View().queue == [0] && View().curr == 0 && View().nxt == 1
      ensures fresh(status)
    {
      status := new Status[SLOTS](_ => Unused);
      queue := [];
      curr := 0;
      nxt := 0;
      new;
      var idle := ThreadCreate();
      curr := 0;
    }

    /** `thread_create`: the slot taken, or none when every slot is in use. */
    method ThreadCreate() returns (pid: Option<nat>)
      requires status.Length == SLOTS && nxt <= SLOTS
      modifies this, status
      ensures pid.Some? <==> NewSlot(old(View())) < SLOTS
      ensures pid.Some? ==> pid.value == NewSlot(old(View())) && View() == Create(old(View()))
      ensures pid.None? ==> View() == old(View())
    {
      var slot: nat;
      if nxt > PID_MAX {
        var i: nat := 0;
        while i <= PID_MAX
          invariant i <= SLOTS
          invariant FreeSlot(View(), 0) == FreeSlot(View(), i)
        {
          if status[i] == Unused {
            break;
          }
          i := i + 1;
        }
        if i > PID_MAX {
          return None;
        }
        slot := i;
      } else {
        slot := nxt;
        nxt := nxt + 1;
      }
      status[slot] := Running;
      queue := [slot] + queue;
      return Some(slot);
    }

    /** `schedule`: the cursor moves on, by way of the list head, until it is at a thread that is no zombie. */
    method Reschedule()
      requires Consistent()
      modifies `curr
      ensures View() == Schedule(old(View())) && Consistent()
    {
      hide Pos, ScanFrom;
      ghost var before := View();
      SchedulePicks(before);
      assert |before.status| == SLOTS;
      ghost var idle := Pos(before.queue, 0);
      var i: nat := PositionOf(curr);
      ghost var start := i;
      ghost var wrapped := false;
      QueueInTable(before);
      i := i + 1;
      while i == |queue| || status[queue[i]] == Zombie
        invariant View() == before && status.Length == SLOTS
        invariant forall j :: 0 <= j < |queue| ==> queue[j] < SLOTS
        invariant i <= |queue| && (!wrapped ==> start < i) && (wrapped ==> i <= idle)
        invariant forall j :: start < j < (if wrapped then |queue| else i) ==> St(before, queue[j]) == Zombie
        invariant wrapped ==> forall j :: 0 <= j < i ==> St(before, queue[j]) == Zombie
        decreases !wrapped, |queue| - i
      {
        if i == |queue| {
          i := 0;
          wrapped := true;
        } else {
          i := i + 1;
        }
      }
      if wrapped {
        ScanToEnd(before, start + 1, 2);
        ScanTo(before, 0, 1, i);
      } else {
        ScanTo(before, start + 1, 2, i);
      }
      curr := queue[i];
    }

    /** `thread_exit`: never of idle. */
    method ThreadExit()
      requires Consistent() && curr != 0
      modifies `curr, status
      ensures View() == Schedule(Kill(old(View()), old(curr))) && Consistent()
      ensures EndsThread(old(View()), View(), old(curr))
    {
      KillKeepsValid(View(), curr);
      EndAndScan(View(), curr);
      hide EndsThread, Schedule;
      status[curr] := Zombie;
      Reschedule();
    }

    /** `sys_kill_pid`: idle and slots not in use are left alone, and so is the last slot. */
    method SysKillPid(pid: int)
      requires Consistent()
      modifies `curr, status
      ensures Consistent()
      ensures View() == if 0 < pid < PID_MAX && pid in old(queue) then Schedule(Kill(old(View()), pid)) else old(View())
      ensures 0 < pid < PID_MAX && pid in old(queue) ==> EndsThread(old(View()), View(), pid)
    {
      hide EndsThread, Schedule;
      if pid >= PID_MAX || pid < 0 || status[pid] == Unused {
        return;
      }
      if pid == 0 {
        return;
      }
      KillKeepsValid(View(), pid);
      EndAndScan(View(), pid);
      status[pid] := Zombie;
      Reschedule();
    }

    /** One turn of the loop of `kill_zombies`: a zombie is unlinked and its slot freed. */
    method ReapEntry(i: nat) returns (next: nat)
      requires i < |queue| && queue[i] < status.Length
      modifies `queue, status
      ensures old(status[queue[i]]) == Zombie ==>
        (next == i && queue == old(queue[..i] + queue[i + 1..]) && status[..] == old(status[..])[old(queue[i]) := Unused])
      ensures old(status[queue[i]]) != Zombie ==> next == i + 1 && queue == old(queue) && status[..] == old(status[..])
    {
      var p := queue[i];
      if status[p] == Zombie {
        queue := queue[..i] + queue[i + 1..];
        status[p] := Unused;
        next := i;
      } else {
        next := i + 1;
      }
    }

    /** One turn of the loop takes the reaping one entry on. */
    method ReapOn(i: nat, ghost before: Table, ghost done: nat) returns (next: nat)
      requires Small(before) && Reaping(before, queue, status[..], i, done) && i < |queue|
      modifies `queue, status
      ensures Reaping(before, queue, status[..], next, done + 1)
      ensures next <= |queue| && |queue| - next == |old(queue)| - i - 1
    {
      ReapStep(before, queue, status[..], i, done);
      hide Reaping;
      next := ReapEntry(i);
    }

    /** The loop of `kill_zombies`: entries are unlinked while the list is walked. */
    method ReapAll(ghost before: Table)
      requires Small(before) && Reaping(before, queue, status[..], 0, 0) && |queue| == |before.queue|
      modifies `queue, status
      ensures Reaping(before, queue, status[..], |queue|, |before.queue|)
    {
      hide Reaping, Small;
      var i: nat := 0;
      ghost var done: nat := 0;
      while i < |queue|
        invariant i <= |queue| && done + (|queue| - i) == |before.queue|
        invariant Reaping(before, queue, status[..], i, done)
        decreases |queue| - i
      {
        i := ReapOn(i, before, done);
        done := done + 1;
      }
    }

    /** `kill_zombies`. */
    method KillZombies()
      requires Consistent() && status[curr] != Zombie
      modifies `queue, status
      ensures View() == Reap(old(View())) && Consistent()
    {
      ghost var before := View();
      QueueInTable(before);
      ReapStarts(before);
      hide Pos, Reaping, Distinct, Reap, Small;
      ReapAll(before);
      ReapEnds(before, View());
    }

    method PositionOf(p: nat) returns (i: nat)
      requires p in queue
      ensures i == Pos(queue, p)
    {
      i := 0;
      while queue[i] != p
        invariant i < |queue| && p in queue[i..] && Pos(queue, p) == i + Pos(queue[i..], p)
        decreases |queue| - i
      {
        assert queue[i..][1..] == queue[i + 1..];
        i := i + 1;
      }
    }
  }
}
