/** The thread table, the run queue and the round-robin scan. */
module Scheduler {
  import opened Lists

  const PID_MAX: nat := 32768
  const SLOTS: nat := 32769

  datatype Status = Running | Zombie | Unused

  /** `queue` is the run queue, front first; `nxt` is the next slot never used so far. */
  datatype Table = Table(status: seq<Status>, queue: seq<nat>, curr: nat, nxt: nat)

  function St(t: Table, p: nat): Status {
    if p < |t.status| then t.status[p] else Unused
  }

  /** The slots in use are exactly the queue entries, each once; idle is queued and runs; slots from
      `nxt` on are unused. */
  ghost predicate Valid(t: Table) {
    && |t.status| == SLOTS && Distinct(t.queue) && t.nxt <= SLOTS
    && (forall p: nat :: p in t.queue <==> p < SLOTS && t.status[p] != Unused)
    && 0 in t.queue && t.status[0] == Running
    && (forall p :: t.nxt <= p < SLOTS ==> t.status[p] == Unused)
    && t.curr in t.queue
  }

  // ---------------------------------------------------------------- positions

  function Pos(q: seq<nat>, p: nat): (i: nat)
    requires p in q
    ensures i < |q| && q[i] == p
  {
    if q[0] == p then 0 else 1 + Pos(q[1..], p)
  }

  lemma {:induction false} PosHead(q: seq<nat>, p: nat)
    requires q != [] && q[0] == p
    ensures Pos(q, p) == 0
  {
  }

  lemma {:induction false} PosTail(q: seq<nat>, p: nat)
    requires p in q && q[0] != p
    ensures p in q[1..] && Pos(q, p) == 1 + Pos(q[1..], p)
  {
  }

  lemma {:induction false} PosIs(q: seq<nat>, i: nat)
    requires Distinct(q) && i < |q|
    ensures Pos(q, q[i]) == i
  {
  }

  // ---------------------------------------------------------------- schedule

  /** The first thread from position `i` on that is no zombie; the scan goes round by way of the list
      head.  `left` counts the positions still to look at. */
  function ScanFrom(t: Table, i: nat, left: nat): nat
    requires i <= |t.queue|
    decreases left, |t.queue| - i
  {
    if left == 0 then 0
    else if i == |t.queue| then ScanFrom(t, 0, left - 1)
    else if St(t, t.queue[i]) == Zombie then ScanFrom(t, i + 1, left)
    else t.queue[i]
  }

  /** `schedule`: scanning starts behind the current thread. */
  function Schedule(t: Table): Table
    requires Valid(t)
  {
    t.(curr := ScanFrom(t, Pos(t.queue, t.curr) + 1, 2))
  }

  /** What a scan passes over is zombies only. */
  lemma {:induction false} ScanTo(t: Table, i: nat, left: nat, k: nat)
    requires Valid(t) && i <= k < |t.queue| && left > 0
    requires St(t, t.queue[k]) != Zombie && forall j :: i <= j < k ==> St(t, t.queue[j]) == Zombie
    ensures ScanFrom(t, i, left) == t.queue[k]
    decreases k - i
  {
    if i < k {
      ScanTo(t, i + 1, left, k);
    }
  }

  lemma {:induction false} ScanToEnd(t: Table, i: nat, left: nat)
    requires Valid(t) && i <= |t.queue| && left > 0
    requires forall j :: i <= j < |t.queue| ==> St(t, t.queue[j]) == Zombie
    ensures ScanFrom(t, i, left) == ScanFrom(t, 0, left - 1)
    decreases |t.queue| - i
  {
    if i < |t.queue| {
      ScanToEnd(t, i + 1, left);
    }
  }

  lemma {:induction false} FirstAlive(t: Table, i: nat) returns (k: nat)
    requires Valid(t) && i <= |t.queue|
    ensures i <= k <= |t.queue| && forall j :: i <= j < k ==> St(t, t.queue[j]) == Zombie
    ensures k < |t.queue| ==> St(t, t.queue[k]) != Zombie
    decreases |t.queue| - i
  {
    if i == |t.queue| || St(t, t.queue[i]) != Zombie {
      k := i;
    } else {
      k := FirstAlive(t, i + 1);
    }
  }

  /** `schedule` picks the next thread in queue order, going round once at most, that is no zombie. */
  lemma {:induction false} SchedulePicks(t: Table)
    requires Valid(t)
    ensures Valid(Schedule(t)) && St(t, Schedule(t).curr) == Running
    ensures Schedule(t).status == t.status && Schedule(t).queue == t.queue && Schedule(t).nxt == t.nxt
    ensures var i := Pos(t.queue, t.curr); var k := Pos(t.queue, Schedule(t).curr);
      (i < k ==> forall j :: i < j < k ==> St(t, t.queue[j]) == Zombie)
      && (k <= i ==> forall j :: i < j < |t.queue| || 0 <= j < k ==> St(t, t.queue[j]) == Zombie)
  {
    hide Pos, ScanFrom;
    var i := Pos(t.queue, t.curr);
    var k := FirstAlive(t, i + 1);
    if k < |t.queue| {
      ScanTo(t, i + 1, 2, k);
      PosIs(t.queue, k);
    } else {
      ScanToEnd(t, i + 1, 2);
      k := FirstAlive(t, 0);
      var z := Pos(t.queue, 0);
      assert St(t, t.queue[z]) != Zombie;
      ScanTo(t, 0, 1, k);
      PosIs(t.queue, k);
    }
  }

  // ---------------------------------------------------------------- creating, ending, reaping

  /** The slot that `thread_create` takes: the next one never used, and once those have run out the
      lowest unused one.  There may be none. */
  function FreeSlot(t: Table, i: nat): (p: nat)
    requires |t.status| == SLOTS && i <= SLOTS
    ensures i <= p <= SLOTS && (p < SLOTS ==> t.status[p] == Unused)
    ensures forall q :: i <= q < p ==> t.status[q] != Unused
    decreases SLOTS - i
  {
    if i == SLOTS || t.status[i] == Unused then i else FreeSlot(t, i + 1)
  }

  function NewSlot(t: Table): nat
    requires |t.status| == SLOTS
  {
    if t.nxt > PID_MAX then FreeSlot(t, 0) else t.nxt
  }

  /** A new thread is put at the front of the queue. */
  function Create(t: Table): Table
    requires |t.status| == SLOTS && t.nxt <= SLOTS && NewSlot(t) < SLOTS
  {
    var p := NewSlot(t);
    Table(t.status[p := Running], [p] + t.queue, t.curr, if t.nxt > PID_MAX then t.nxt else t.nxt + 1)
  }

  function Kill(t: Table, p: nat): Table
    requires p < |t.status|
  {
    t.(status := t.status[p := Zombie])
  }

  function NonZombies(t: Table, q: seq<nat>): seq<nat>
  {
    if q == [] then [] else (if St(t, q[0]) == Zombie then [] else [q[0]]) + NonZombies(t, q[1..])
  }

  /** `kill_zombies`. */
  function Reap(t: Table): Table
    requires |t.status| == SLOTS
  {
    t.(queue := NonZombies(t, t.queue),
       status := seq(SLOTS, p requires 0 <= p < SLOTS => if t.status[p] == Zombie && p in t.queue then Unused else t.status[p]))
  }

  /** A slot in use is never given out again, before or after the numbers have run out.  The new thread runs, in
      front; no other changes.  `nxt` stays just above every slot given so far: while there are numbers the slot is
      a new one, and after that the lowest that is free. */
  lemma {:induction false} CreateKeepsValid(t: Table)
    requires Valid(t) && NewSlot(t) < SLOTS
    ensures Valid(Create(t)) && NewSlot(t) !in t.queue && t.status[NewSlot(t)] == Unused
    ensures Create(t).queue == [NewSlot(t)] + t.queue && Create(t).curr == t.curr
    ensures forall q: nat :: St(Create(t), q) == if q == NewSlot(t) then Running else St(t, q)
    ensures Create(t).nxt == if NewSlot(t) < t.nxt then t.nxt else NewSlot(t) + 1
    ensures t.nxt <= PID_MAX ==> NewSlot(t) >= t.nxt
    ensures t.nxt > PID_MAX ==> forall q :: 0 <= q < NewSlot(t) ==> t.status[q] != Unused
  {
    DistinctCons(NewSlot(t), t.queue);
    hide Distinct;
  }

  /** Creation fails exactly when every slot is in use. */
  lemma {:induction false} CreateFails(t: Table)
    requires Valid(t)
    ensures NewSlot(t) == SLOTS <==> forall p :: 0 <= p < SLOTS ==> t.status[p] != Unused
  {
    assert NewSlot(t) < SLOTS ==> t.status[NewSlot(t)] == Unused;
  }

  /** A thread that is ended is a zombie, still queued; nothing else changes. */
  lemma {:induction false} KillKeepsValid(t: Table, p: nat)
    requires Valid(t) && p in t.queue && p != 0
    ensures Valid(Kill(t, p)) && Kill(t, p).queue == t.queue && Kill(t, p).curr == t.curr && Kill(t, p).nxt == t.nxt
    ensures forall q: nat :: St(Kill(t, p), q) == if q == p then Zombie else St(t, q)
  {
  }

  /** After it is ended and a scan: a zombie, queued, and not the thread that runs. */
  ghost predicate EndsThread(t: Table, n: Table, p: nat) {
    && (forall q: nat :: St(n, q) == if q == p then Zombie else St(t, q))
    && n.queue == t.queue && n.nxt == t.nxt && n.curr != p && St(n, n.curr) == Running
  }

  lemma {:induction false} EndAndScan(t: Table, p: nat)
    requires Valid(t) && p in t.queue && p != 0
    ensures Valid(Kill(t, p)) && EndsThread(t, Schedule(Kill(t, p)), p)
  {
    KillKeepsValid(t, p);
    SchedulePicks(Kill(t, p));
    var n := Schedule(Kill(t, p));
    assert n.status == Kill(t, p).status;
    hide Schedule, Kill, Valid;
    forall q: nat
      ensures St(n, q) == if q == p then Zombie else St(t, q)
    {
      assert St(n, q) == St(Kill(t, p), q);
    }
  }

  lemma {:induction false} NonZombiesAre(t: Table, q: seq<nat>)
    requires Distinct(q)
    ensures Distinct(NonZombies(t, q))
    ensures forall p: nat :: p in NonZombies(t, q) <==> p in q && St(t, p) != Zombie
  {
    if q != [] {
      NonZombiesAre(t, q[1..]);
      assert forall p: nat :: p in q <==> p == q[0] || p in q[1..];
      assert q[0] !in q[1..];
    }
  }

  /** Reaping removes exactly the zombies from the queue and frees exactly their slots. */
  lemma {:induction false} ReapKeepsValid(t: Table)
    requires Valid(t) && St(t, t.curr) != Zombie
    ensures Valid(Reap(t))
    ensures forall p: nat :: p in Reap(t).queue <==> p in t.queue && t.status[p] != Zombie
    ensures forall p: nat :: p < SLOTS ==> Reap(t).status[p] == if t.status[p] == Zombie then Unused else t.status[p]
    ensures Reap(t).curr == t.curr && Reap(t).nxt == t.nxt
  {
    NonZombiesAre(t, t.queue);
  }

  lemma {:induction false} NonZombiesStep(t: Table, q: seq<nat>)
    requires q != []
    ensures NonZombies(t, q) == if St(t, q[0]) == Zombie then NonZombies(t, q[1..]) else [q[0]] + NonZombies(t, q[1..])
  {
  }

  lemma {:induction false} PosOfCons(x: nat, q: seq<nat>, p: nat)
    requires p in q && x != p
    ensures Pos([x] + q, p) == Pos(q, p) + 1
  {
    assert ([x] + q)[1..] == q;
  }

  /** Reaping keeps the order of the rest. */
  lemma {:induction false} NonZombiesKeepOrder(t: Table, q: seq<nat>, a: nat, b: nat)
    requires a in q && b in q && St(t, a) != Zombie && St(t, b) != Zombie && Pos(q, a) < Pos(q, b)
    ensures a in NonZombies(t, q) && b in NonZombies(t, q) && Pos(NonZombies(t, q), a) < Pos(NonZombies(t, q), b)
    ensures Pos(NonZombies(t, q), b) - Pos(NonZombies(t, q), a) <= Pos(q, b) - Pos(q, a)
  {
    NonZombiesStep(t, q);
    var z := NonZombies(t, q[1..]);
    if q[0] == b {
      PosHead(q, b);
      assert false;
    }
    PosTail(q, b);
    if q[0] == a {
      PosHead(q, a);
      hide Pos, NonZombies;
      NonZombiesShrink(t, q[1..], b);
      PosHead([a] + z, a);
      PosOfCons(a, z, b);
    } else {
      PosTail(q, a);
      hide Pos, NonZombies;
      NonZombiesKeepOrder(t, q[1..], a, b);
      if St(t, q[0]) != Zombie {
        PosOfCons(q[0], z, a);
        PosOfCons(q[0], z, b);
      }
    }
  }

  lemma {:induction false} NonZombiesShrink(t: Table, q: seq<nat>, b: nat)
    requires b in q && St(t, b) != Zombie
    ensures b in NonZombies(t, q) && Pos(NonZombies(t, q), b) <= Pos(q, b)
    ensures |NonZombies(t, q)| - Pos(NonZombies(t, q), b) <= |q| - Pos(q, b)
  {
    hide Pos, NonZombies;
    NonZombiesStep(t, q);
    var z := NonZombies(t, q[1..]);
    if q[0] == b {
      NonZombiesShorter(t, q[1..]);
      PosHead(q, b);
      PosHead([b] + z, b);
    } else {
      PosTail(q, b);
      NonZombiesShrink(t, q[1..], b);
      if St(t, q[0]) != Zombie {
        PosOfCons(q[0], z, b);
      }
    }
  }

  lemma {:induction false} NonZombiesShorter(t: Table, q: seq<nat>)
    ensures |NonZombies(t, q)| <= |q|
  {
    if q != [] {
      NonZombiesShorter(t, q[1..]);
    }
  }

  // ---------------------------------------------------------------- runs

  /** What happens between two states: a scan, a fork, a thread marked zombie by its exit or by a kill,
      or a reaping, which only idle does. */
  datatype Event = ScheduleEvent | CreateEvent | EndEvent(pid: nat) | ReapEvent

  ghost predicate Enabled(t: Table, e: Event)
    requires Valid(t)
  {
    match e
    case ScheduleEvent => true
    case CreateEvent => NewSlot(t) < SLOTS
    case EndEvent(p) => p in t.queue && p != 0
    case ReapEvent => t.curr == 0
  }

  ghost function Next(t: Table, e: Event): Table
    requires Valid(t) && Enabled(t, e)
  {
    match e
    case ScheduleEvent => Schedule(t)
    case CreateEvent => Create(t)
    case EndEvent(p) => Kill(t, p)
    case ReapEvent => Reap(t)
  }

  lemma {:induction false} NextKeepsValid(t: Table, e: Event)
    requires Valid(t) && Enabled(t, e)
    ensures Valid(Next(t, e))
  {
    match e {
      case ScheduleEvent => SchedulePicks(t);
      case CreateEvent => CreateKeepsValid(t);
      case EndEvent(p) => KillKeepsValid(t, p);
      case ReapEvent => ReapKeepsValid(t);
    }
  }

  ghost predicate StepAt(ts: nat -> Table, es: nat -> Event, i: nat) {
    Valid(ts(i)) ==> Enabled(ts(i), es(i)) && ts(i + 1) == Next(ts(i), es(i))
  }

  /** An endless run. */
  ghost predicate IsRun(ts: nat -> Table, es: nat -> Event) {
    Valid(ts(0)) && forall i: nat :: StepAt(ts, es, i)
  }

  ghost predicate AliveAt(ts: nat -> Table, p: nat, j: nat) {
    p in ts(j).queue && St(ts(j), p) == Running
  }

  lemma {:induction false} RunStaysValid(ts: nat -> Table, es: nat -> Event, i: nat)
    requires IsRun(ts, es)
    ensures Valid(ts(i)) && Enabled(ts(i), es(i)) && ts(i + 1) == Next(ts(i), es(i)) && ts(i).curr in ts(i).queue
  {
    hide Next, Enabled;
    assert StepAt(ts, es, i);
    if i > 0 {
      assert StepAt(ts, es, i - 1);
      RunStaysValid(ts, es, i - 1);
      NextKeepsValid(ts(i - 1), es(i - 1));
      assert ts(i - 1 + 1) == ts(i);
    }
  }

  // ---------------------------------------------------------------- slots and ended threads, in runs

  /** The slots given so far lie below `nxt`, which never goes back. */
  lemma {:induction false} NxtGrows(ts: nat -> Table, es: nat -> Event, i: nat, m: nat)
    requires IsRun(ts, es) && i <= m
    ensures ts(i).nxt <= ts(m).nxt
    decreases m - i
  {
    hide IsRun, Valid, Enabled, Next;
    if i < m {
      NxtGrows(ts, es, i, m - 1);
      RunStaysValid(ts, es, m - 1);
      NxtStep(ts(m - 1), es(m - 1));
      assert ts(m - 1 + 1) == ts(m);
    }
  }

  lemma {:induction false} NxtStep(t: Table, e: Event)
    requires Valid(t) && Enabled(t, e)
    ensures t.nxt <= Next(t, e).nxt
  {
    match e {
      case ScheduleEvent => SchedulePicks(t);
      case CreateEvent => CreateKeepsValid(t);
      case EndEvent(p) => KillKeepsValid(t, p);
      case ReapEvent => ReapKeepsValid(t);
    }
  }

  /** In every run: a slot that is given a second time is given after the numbers have run out. */
  lemma {:induction false} SlotsComeBackLate(ts: nat -> Table, es: nat -> Event, i: nat, j: nat)
    requires IsRun(ts, es) && i < j && es(i).CreateEvent? && es(j).CreateEvent?
    ensures Valid(ts(i)) && Valid(ts(j)) && (NewSlot(ts(i)) == NewSlot(ts(j)) ==> ts(j).nxt > PID_MAX)
  {
    RunStaysValid(ts, es, i);
    RunStaysValid(ts, es, j);
    CreateKeepsValid(ts(i));
    CreateKeepsValid(ts(j));
    NxtGrows(ts, es, i + 1, j);
    hide Valid, Create, NewSlot;
  }

  lemma {:induction false} EndedStep(t: Table, e: Event, p: nat)
    requires Valid(t) && Enabled(t, e) && St(t, p) != Running && !(e.CreateEvent? && NewSlot(t) == p)
    ensures St(Next(t, e), p) != Running
    ensures e.ScheduleEvent? ==> Next(t, e).curr != p
    ensures e.ReapEvent? ==> St(Next(t, e), p) == Unused && p !in Next(t, e).queue
  {
    match e {
      case ScheduleEvent => SchedulePicks(t);
      case CreateEvent => CreateKeepsValid(t);
      case EndEvent(q) => KillKeepsValid(t, q);
      case ReapEvent => ReapKeepsValid(t);
    }
  }

  lemma {:induction false} NotRunningSince(ts: nat -> Table, es: nat -> Event, p: nat, i: nat, k: nat)
    requires IsRun(ts, es) && i < k && es(i) == EndEvent(p)
    requires forall j: nat :: i < j < k && es(j).CreateEvent? ==> |ts(j).status| == SLOTS && NewSlot(ts(j)) != p
    ensures St(ts(k), p) != Running
    decreases k
  {
    hide Valid, Enabled, Next, IsRun, NewSlot, St;
    RunStaysValid(ts, es, k - 1);
    assert ts(k - 1 + 1) == ts(k);
    if k == i + 1 {
      EndStep(ts(i), p);
    } else {
      NotRunningSince(ts, es, p, i, k - 1);
      EndedStep(ts(k - 1), es(k - 1), p);
    }
  }

  lemma {:induction false} EndStep(t: Table, p: nat)
    requires Valid(t) && Enabled(t, EndEvent(p))
    ensures St(Next(t, EndEvent(p)), p) != Running
  {
    KillKeepsValid(t, p);
  }

  /** In every run: until its slot is given to a new thread, an ended thread does not run again; no scan selects it, and
      the next reaping frees its slot. */
  lemma {:induction false} EndedStaysEnded(ts: nat -> Table, es: nat -> Event, p: nat, i: nat, k: nat)
    requires IsRun(ts, es) && i < k && es(i) == EndEvent(p)
    requires forall j: nat :: i < j <= k && es(j).CreateEvent? ==> |ts(j).status| == SLOTS && NewSlot(ts(j)) != p
    ensures St(ts(k), p) != Running
    ensures es(k).ScheduleEvent? ==> ts(k + 1).curr != p
    ensures es(k).ReapEvent? ==> St(ts(k + 1), p) == Unused && p !in ts(k + 1).queue
  {
    hide Valid, Enabled, Next, IsRun, NewSlot, St;
    NotRunningSince(ts, es, p, i, k);
    RunStaysValid(ts, es, k);
    EndedStep(ts(k), es(k), p);
  }

  // ---------------------------------------------------------------- how far the scan is from a thread

  /** 1 while the scan has yet to go round to get to `p`, then 0. */
  function Rounds(t: Table, p: nat): nat
    requires p in t.queue && t.curr in t.queue
  {
    if Pos(t.queue, p) > Pos(t.queue, t.curr) then 0 else 1
  }

  /** How far ahead the scan is of `p`, or of the end of the queue before it goes round. */
  function Ahead(t: Table, p: nat): nat
    requires p in t.queue && t.curr in t.queue
  {
    if Pos(t.queue, p) > Pos(t.queue, t.curr) then Pos(t.queue, p) - Pos(t.queue, t.curr)
    else |t.queue| - Pos(t.queue, t.curr)
  }

  /** In `t` the scan is no farther from `p` than in `s`. */
  predicate NoFarther(s: Table, t: Table, p: nat)
    requires p in s.queue && s.curr in s.queue && p in t.queue && t.curr in t.queue
  {
    Rounds(t, p) < Rounds(s, p) || (Rounds(t, p) == Rounds(s, p) && Ahead(t, p) <= Ahead(s, p))
  }

  /** A scan selects `p` or gets strictly nearer to it. */
  lemma {:induction false} ScheduleGetsNearer(t: Table, p: nat)
    requires Valid(t) && p in t.queue && St(t, p) == Running
    ensures var n := Schedule(t);
      Valid(n) && p in n.queue &&
      (n.curr == p || Rounds(n, p) < Rounds(t, p) || (Rounds(n, p) == Rounds(t, p) && Ahead(n, p) < Ahead(t, p)))
  {
    SchedulePicks(t);
    var n := Schedule(t);
    var i, k, j := Pos(t.queue, t.curr), Pos(t.queue, n.curr), Pos(t.queue, p);
    assert t.queue[j] == p && t.queue[k] == n.curr;
  }

  /** No other event takes the scan farther from `p`: new threads are put in front. */
  lemma {:induction false} OthersKeepNear(t: Table, e: Event, p: nat)
    requires Valid(t) && Enabled(t, e) && !e.ScheduleEvent? && p in t.queue && St(t, p) == Running
    requires p in Next(t, e).queue
    ensures var n := Next(t, e);
      Valid(n) && NoFarther(t, n, p)
  {
    hide Pos, NonZombies, FreeSlot;
    NextKeepsValid(t, e);
    match e {
      case CreateEvent =>
        PosOfCons(NewSlot(t), t.queue, p);
        PosOfCons(NewSlot(t), t.queue, t.curr);
      case EndEvent(_) =>
      case ReapEvent =>
        NonZombiesShrink(t, t.queue, t.curr);
        if Pos(t.queue, t.curr) < Pos(t.queue, p) {
          NonZombiesKeepOrder(t, t.queue, t.curr, p);
        } else if Pos(t.queue, p) < Pos(t.queue, t.curr) {
          NonZombiesKeepOrder(t, t.queue, p, t.curr);
        }
    }
  }

  function RoundsAt(ts: nat -> Table, p: nat, i: nat): nat {
    if p in ts(i).queue && ts(i).curr in ts(i).queue then Rounds(ts(i), p) else 0
  }

  function AheadAt(ts: nat -> Table, p: nat, i: nat): nat {
    if p in ts(i).queue && ts(i).curr in ts(i).queue then Ahead(ts(i), p) else 0
  }

  ghost predicate ScansAfter(es: nat -> Event, j: nat) {
    exists m: nat :: m >= j && es(m).ScheduleEvent?
  }

  /** A scan between steps `i` and `m` selects `p`. */
  ghost predicate Selected(ts: nat -> Table, es: nat -> Event, p: nat, i: nat, m: nat) {
    exists k: nat :: SelectedAt(ts, es, p, k) && i <= k < m
  }

  ghost predicate SelectedAt(ts: nat -> Table, es: nat -> Event, p: nat, k: nat) {
    es(k).ScheduleEvent? && ts(k + 1).curr == p
  }

  /** No step takes the scan farther from `p` without selecting it, and a scan gets nearer. */
  lemma {:induction false} StepKeepsNear(ts: nat -> Table, es: nat -> Event, p: nat, i: nat)
    requires IsRun(ts, es) && AliveAt(ts, p, i) && AliveAt(ts, p, i + 1)
    ensures Known(ts, p, i) && Known(ts, p, i + 1)
    ensures NoFarther(ts(i), ts(i + 1), p) || SelectedAt(ts, es, p, i)
    ensures es(i).ScheduleEvent? ==> SelectedAt(ts, es, p, i) || !NoFarther(ts(i + 1), ts(i), p)
  {
    RunStaysValid(ts, es, i);
    RunStaysValid(ts, es, i + 1);
    hide IsRun, Pos;
    if es(i).ScheduleEvent? {
      ScheduleGetsNearer(ts(i), p);
    } else {
      OthersKeepNear(ts(i), es(i), p);
    }
  }

  /** Distances are defined. */
  ghost predicate Known(ts: nat -> Table, p: nat, i: nat) {
    p in ts(i).queue && ts(i).curr in ts(i).queue
  }

  /** From step to step the scan never gets farther from `p` without having selected it. */
  lemma {:induction false} NearUntil(ts: nat -> Table, es: nat -> Event, p: nat, i: nat, m: nat)
    requires IsRun(ts, es) && i <= m
    requires forall j: nat :: j >= i ==> AliveAt(ts, p, j)
    ensures Known(ts, p, i) && Known(ts, p, m)
    ensures NoFarther(ts(i), ts(m), p) || Selected(ts, es, p, i, m)
    decreases m - i
  {
    hide IsRun, Rounds, Ahead, SelectedAt;
    assert AliveAt(ts, p, i) && AliveAt(ts, p, i + 1);
    StepKeepsNear(ts, es, p, i);
    if i < m {
      NearUntil(ts, es, p, i, m - 1);
      assert AliveAt(ts, p, m - 1) && AliveAt(ts, p, m);
      StepKeepsNear(ts, es, p, m - 1);
    }
  }

  /** No starvation: in an endless run with scans again and again, a thread that stays alive from step
      `i` on is selected at some later step. */
  lemma {:induction false} NoStarvation(ts: nat -> Table, es: nat -> Event, p: nat, i: nat) returns (k: nat)
    requires IsRun(ts, es)
    requires forall j: nat :: j >= i ==> AliveAt(ts, p, j)
    requires forall j: nat :: ScansAfter(es, j)
    ensures k >= i && es(k).ScheduleEvent? && ts(k + 1).curr == p
    decreases RoundsAt(ts, p, i), AheadAt(ts, p, i)
  {
    hide IsRun, AliveAt, Pos, Rounds, Ahead;
    assert ScansAfter(es, i);
    var m: nat :| m >= i && es(m).ScheduleEvent?;
    NearUntil(ts, es, p, i, m);
    assert AliveAt(ts, p, m) && AliveAt(ts, p, m + 1);
    StepKeepsNear(ts, es, p, m);
    if Selected(ts, es, p, i, m) {
      k :| SelectedAt(ts, es, p, k) && i <= k < m;
    } else if SelectedAt(ts, es, p, m) {
      k := m;
    } else {
      k := NoStarvation(ts, es, p, m + 1);
    }
  }
}
