/** Creating, forking, executing and reaping threads, as far as allocated blocks go.  The allocator
    is any that hands out blocks not in use; freeing demands a block in use. */
module Processes {
  import opened MemoryMap
  import opened Lists
  import opened Ownership
  import DemandPaging

  lemma {:induction false} FreshExists(live: set<nat>) returns (b: nat)
    ensures b !in live && forall x :: x in live ==> x < b
  {
    if live == {} {
      b := 0;
    } else {
      var x :| x in live;
      b := FreshExists(live - {x});
      assert forall y :: y in live ==> y == x || y in live - {x};
      if b <= x {
        b := x + 1;
      }
    }
  }

  /** The area owns its memory, and that and its record are what was allocated between `before` and `after`. */
  ghost predicate FreshArea(a: Area, before: set<nat>, after: set<nat>) {
    a.owned && a.phys !in before && a.node !in before && a.phys != a.node && after == before + {a.phys, a.node}
  }

  class System {
    var live: set<nat>
    var contents: map<nat, int>  // what each block holds
    var procs: map<nat, Proc>

    ghost predicate Sound()
      reads this
    {
      Owned(live, procs)
    }

    /** What holds between the calls: blocks have one owner, and the areas of every thread are regular. */
    ghost predicate Safe()
      reads this
    {
      Sound() && forall p :: p in procs ==> Regular(procs[p].areas)
    }

    constructor ()
      ensures Safe() && procs == map[]
    {
      live, contents, procs := {}, map[], map[];
    }

    method Kmalloc() returns (b: nat)
      modifies `live
      ensures b !in old(live) && live == old(live) + {b}
    {
      ghost var w := FreshExists(live);
      b :| b !in live;
      live := live + {b};
    }

    method Kfree(b: nat)
      requires b in live
      modifies `live
      ensures live == old(live) - {b}
    {
      live := live - {b};
    }

    /** `memcpy` of a whole block. */
    method Copy(dst: nat, src: nat)
      modifies `contents
      ensures contents == old(contents)[dst := if src in old(contents) then old(contents)[src] else 0]
    {
      contents := contents[dst := if src in contents then contents[src] else 0];
    }

    /** The allocations of `thread_create`: data, kernel stack, user stack, root table. */
    method ThreadCreate(pid: nat) returns (data: nat, ustack: nat, pgd: nat)
      requires Sound() && pid !in procs
      modifies `live, `procs
      ensures Sound() && pid in procs && procs == old(procs)[pid := Proc(procs[pid].kstack, [])]
      ensures live >= old(live) && procs[pid].kstack !in old(live)
      ensures live == old(live) + {data, ustack, pgd, procs[pid].kstack}
      ensures {data, ustack, pgd} <= live - old(live) - {procs[pid].kstack} && data != ustack && pgd != data && pgd != ustack
    {
      ghost var before := live;
      data := Kmalloc();
      var kstack := Kmalloc();
      ustack := Kmalloc();
      pgd := Kmalloc();
      NewProcKeepsOwned(before, procs, pid, kstack, live);
      procs := procs[pid := Proc(kstack, [])];
    }

    /** `add_vma`; memory given with `owned` must be allocated and owned by no thread yet. */
    method AddVma(pid: nat, virt: nat, size: nat, phys: nat, prot: nat, owned: bool) returns (node: nat)
      requires Sound() && pid in procs
      requires owned ==> phys in live && forall q :: q in procs ==> phys !in Blocks(procs[q])
      modifies `live, `procs
      ensures Sound() && node !in old(live) && live == old(live) + {node}
      ensures procs == old(procs)[pid := old(procs)[pid].(areas := old(procs)[pid].areas + [Area(node, virt, RoundUp(size), prot, phys, owned)])]
    {
      node := Kmalloc();
      var a := Area(node, virt, RoundUp(size), prot, phys, owned);
      GrowKeepsOwned(old(live), procs, pid, a, live);
      procs := procs[pid := procs[pid].(areas := procs[pid].areas + [a])];
    }

    /** One area is freed: its memory, if owned, and then its record. */
    method FreeArea(a: Area)
      requires Distinct(AreaBlocks(a)) && Elements(AreaBlocks(a)) <= live
      modifies `live
      ensures live == old(live) - Elements(AreaBlocks(a))
    {
      ghost var l := AreaBlocks(a);
      assert l[|l| - 1] == a.node && a.node in Elements(l);
      if a.owned {
        assert l == [a.phys, a.node] && a.phys in Elements(l) && l[0] != l[1];
        Kfree(a.phys);
      }
      Kfree(a.node);
    }

    /** The loop that frees areas, in `sys_exec` and in `kill_zombies`. */
    method FreeAreas(areas: seq<Area>)
      requires Distinct(AllBlocks(areas)) && Elements(AllBlocks(areas)) <= live
      modifies `live
      ensures live == old(live) - Elements(AllBlocks(areas))
    {
      hide Distinct, AreaBlocks, AllBlocks;
      var k: nat := 0;
      assert areas[..0] == [];
      NoBlocks();
      while k < |areas|
        invariant k <= |areas| && live == old(live) - Elements(AllBlocks(areas[..k]))
      {
        ghost var before, now, after := AllBlocks(areas[..k]), AreaBlocks(areas[k]), AllBlocks(areas[k + 1..]);
        AllBlocksAt(areas, k);
        StillLive(before, now, after);
        assert Elements(before + now) == Elements(before) + Elements(now);
        assert Elements(before + now + after) == Elements(before) + Elements(now) + Elements(after);
        FreeArea(areas[k]);
        k := k + 1;
      }
      assert areas[..k] == areas;
    }

    /** Text and user stack. */
    method SetUpOwned(pid: nat, size: nat, data: nat, ustack: nat) returns (n1: nat, n2: nat)
      requires Sound() && pid in procs && procs[pid].areas == [] && data != ustack && data in live && ustack in live
      requires forall q :: q in procs ==> data !in Blocks(procs[q]) && ustack !in Blocks(procs[q])
      modifies `live, `procs
      ensures Sound() && live == old(live) + {n1, n2}
      ensures procs == old(procs)[pid := Proc(old(procs)[pid].kstack,
        [Area(n1, 0, RoundUp(size), 7, data, true), Area(n2, STACK, STACK_SIZE, 7, ustack, true)])]
    {
      hide Owned, Blocks;
      ghost var before := procs;
      n1 := AddVma(pid, 0, size, data, 7, true);
      ghost var text := Area(n1, 0, RoundUp(size), 7, data, true);
      assert [] + [text] == [text];
      StillNotOwned(before, pid, text, ustack, procs);
      hide AreaBlocks;
      n2 := AddVma(pid, STACK, STACK_SIZE, ustack, 7, true);
      assert [text] + [Area(n2, STACK, STACK_SIZE, 7, ustack, true)] == [text, Area(n2, STACK, STACK_SIZE, 7, ustack, true)];
    }

    /** The areas every started thread has: text, stack, device, signal wrapper. */
    method SetUp(pid: nat, size: nat, data: nat, ustack: nat)
      requires Sound() && pid in procs && procs[pid].areas == [] && data != ustack && data in live && ustack in live
      requires forall q :: q in procs ==> data !in Blocks(procs[q]) && ustack !in Blocks(procs[q])
      modifies `live, `procs
      ensures Sound() && pid in procs && live == old(live) + Elements(AllBlocks(procs[pid].areas))
      ensures procs == old(procs)[pid := old(procs)[pid].(areas := procs[pid].areas)]
      ensures Started(procs[pid].areas) && |procs[pid].areas| == 4
      ensures procs[pid].areas[0].owned && procs[pid].areas[0].phys == data
      ensures procs[pid].areas[1].owned && procs[pid].areas[1].phys == ustack
      ensures {data, ustack} <= Elements(AllBlocks(procs[pid].areas))
      ensures ShapeList(procs[pid].areas) == [Shape(0, RoundUp(size), 7), Shape(STACK, STACK_SIZE, 7), DEVICE_SHAPE, SIGNAL_SHAPE]
    {
      hide Owned, Blocks, Standard, Started, ShapeList, AreaBlocks, AllBlocks, Elements;
      var n1, n2 := SetUpOwned(pid, size, data, ustack);
      AddFixed(pid);
      StandardSetUp(procs[pid].areas, size);
      FourBlocks(procs[pid].areas);
    }

    /** Device and signal wrapper: areas whose memory is not freed with them. */
    method AddFixed(pid: nat)
      requires Sound() && pid in procs
      modifies `live, `procs
      ensures Sound() && live >= old(live) && pid in procs
      ensures exists n3, n4 ::
        (live == old(live) + {n3, n4} &&
         procs == old(procs)[pid := old(procs)[pid].(areas := old(procs)[pid].areas +
           [Area(n3, DEVICE, DEVICE_SIZE, 3, DEVICE, false), Area(n4, SIGNAL, SIGNAL_SIZE, 5, SIGNAL, false)])])
    {
      hide Owned, Blocks, AreaBlocks;
      var n3 := AddVma(pid, DEVICE, DEVICE_SIZE, DEVICE, 3, false);
      var n4 := AddVma(pid, SIGNAL, SIGNAL_SIZE, SIGNAL, 5, false);
      ghost var two := [Area(n3, DEVICE, DEVICE_SIZE, 3, DEVICE, false), Area(n4, SIGNAL, SIGNAL_SIZE, 5, SIGNAL, false)];
      assert procs[pid].areas == old(procs)[pid].areas + two;
      assert procs == old(procs)[pid := old(procs)[pid].(areas := old(procs)[pid].areas + two)];
    }

    /** The standard areas, and the text filled in. */
    method SetUpProgram(pid: nat, size: nat, data: nat, ustack: nat, program: int)
      requires Sound() && pid in procs && procs[pid].areas == [] && data != ustack && data in live && ustack in live
      requires forall q :: q in procs ==> data !in Blocks(procs[q]) && ustack !in Blocks(procs[q])
      modifies this
      ensures Sound() && pid in procs && live == old(live) + Elements(AllBlocks(procs[pid].areas))
      ensures procs == old(procs)[pid := old(procs)[pid].(areas := procs[pid].areas)]
      ensures Started(procs[pid].areas) && Regular(procs[pid].areas)
      ensures {data, ustack} <= Elements(AllBlocks(procs[pid].areas))
      ensures ShapeList(procs[pid].areas) == [Shape(0, RoundUp(size), 7), Shape(STACK, STACK_SIZE, 7), DEVICE_SHAPE, SIGNAL_SHAPE]
      ensures |procs[pid].areas| == 4 && Content(contents, procs[pid].areas[0].phys) == program
    {
      hide Owned, Blocks, Regular, ShapeList, Started, AllBlocks, Elements;
      SetUp(pid, size, data, ustack);
      contents := contents[data := program];
      StartedIsRegular(procs[pid].areas);
    }

    /** `exec_thread`: a first thread from a file of `size` bytes that holds `program`.  What it allocates is the
        thread's own, but for the root table. */
    method ExecThread(pid: nat, size: nat, program: int) returns (pgd: nat)
      requires Safe() && pid !in procs
      modifies this
      ensures Safe() && pid in procs && Started(procs[pid].areas)
      ensures procs == old(procs)[pid := procs[pid]]
      ensures ShapeList(procs[pid].areas) == [Shape(0, RoundUp(size), 7), Shape(STACK, STACK_SIZE, 7), DEVICE_SHAPE, SIGNAL_SHAPE]
      ensures |procs[pid].areas| == 4 && Content(contents, procs[pid].areas[0].phys) == program
      ensures live == old(live) + Elements(Blocks(procs[pid])) + {pgd} && pgd !in old(live)
    {
      hide Owned, Blocks, Regular, ShapeList, Started, Elements, AllBlocks, Content;
      var data, ustack;
      data, ustack, pgd := ThreadCreate(pid);
      ghost var made, kstack := live, procs[pid].kstack;
      NotOwnedYet(old(live), old(procs), pid, kstack, data, procs);
      NotOwnedYet(old(live), old(procs), pid, kstack, ustack, procs);
      SetUpProgram(pid, size, data, ustack, program);
      BlocksElements(procs[pid]);
      SetsJoin(old(live), made, live, Elements(AllBlocks(procs[pid].areas)), kstack, pgd, data, ustack);
    }

    /** `sys_exec`: the old areas are freed, each block once, and the four standard areas set up over new memory, the
        text holding `program`. */
    method SysExec(pid: nat, size: nat, program: int)
      requires Safe() && pid in procs
      modifies this
      ensures Safe() && pid in procs && Started(procs[pid].areas) && procs[pid].kstack == old(procs[pid].kstack)
      ensures procs == old(procs)[pid := procs[pid]]
      ensures ShapeList(procs[pid].areas) == [Shape(0, RoundUp(size), 7), Shape(STACK, STACK_SIZE, 7), DEVICE_SHAPE, SIGNAL_SHAPE]
      ensures |procs[pid].areas| == 4 && Content(contents, procs[pid].areas[0].phys) == program
      ensures live == old(live) - Elements(AllBlocks(old(procs)[pid].areas)) + Elements(AllBlocks(procs[pid].areas))
    {
      var areas := procs[pid].areas;
      AreasAreOwned(live, procs, pid);
      hide Started, Regular, ShapeList, Blocks, AllBlocks, Elements, Distinct, Owned, Content;
      FreeAreas(areas);
      ClearKeepsOwned(old(live), procs, pid);
      procs := procs[pid := procs[pid].(areas := [])];
      ghost var cleared := live;
      var data := Kmalloc();
      var ustack := Kmalloc();
      MoreLive(cleared, procs, live);
      NotOwned(cleared, procs, data);
      MoreLive(cleared, procs, cleared + {data});
      NotOwned(cleared + {data}, procs, ustack);
      ghost var made := live;
      SetUpProgram(pid, size, data, ustack, program);
      SetsReplace(cleared, made, live, Elements(AllBlocks(procs[pid].areas)), data, ustack);
    }

    /** `sys_mmap` once a place is found: a new area over a new block.  The thread keeps its standard form
        exactly when the place is not one of the two fixed addresses. */
    method AddMapping(pid: nat, virt: nat, size: nat, prot: nat)
      requires Safe() && pid in procs
      modifies `live, `procs
      ensures Safe() && pid in procs
      ensures Standard(old(procs)[pid].areas) ==> (Standard(procs[pid].areas) <==> virt != DEVICE && virt != SIGNAL)
      ensures ShapeList(procs[pid].areas) == ShapeList(old(procs)[pid].areas) + [Shape(virt, RoundUp(size), prot)]
      ensures var areas, was := procs[pid].areas, old(procs)[pid].areas;
        |areas| == |was| + 1 && areas[..|was|] == was && FreshArea(areas[|was|], old(live), live)
      ensures procs == old(procs)[pid := old(procs)[pid].(areas := procs[pid].areas)]
    {
      hide Owned, Blocks, AreaBlocks, AllBlocks, Elements, ShapeList, Standard, Regular, RoundUp;
      ghost var before := live;
      var phys := Kmalloc();
      MoreLive(before, procs, live);
      NotOwned(before, procs, phys);
      var node := AddVma(pid, virt, size, phys, prot, true);
      MappingAdds(old(procs)[pid].areas, Area(node, virt, RoundUp(size), prot, phys, true), size);
    }

    /** One turn of the loop of `sys_fork`: an area that is not at a fixed address gets a new block with the
        same contents. */
    method CopyArea(child: nat, a: Area, ghost before: set<nat>, ghost contents0: map<nat, int>, ghost originals: seq<Area>)
      requires Sound() && child in procs && before <= live && a.size % PAGE == 0 && a.phys in before
      requires forall b :: b in before ==> Content(contents, b) == Content(contents0, b)
      requires Copies(procs[child].areas, originals, contents, contents0)
      requires forall k :: 0 <= k < |procs[child].areas| ==> procs[child].areas[k].phys in live
      modifies this
      ensures Sound() && child in procs && live >= old(live)
      ensures procs == old(procs)[child := old(procs)[child].(areas := procs[child].areas)]
      ensures forall b :: b in before ==> Content(contents, b) == Content(contents0, b)
      ensures Copies(procs[child].areas, originals + [a], contents, contents0)
      ensures forall k :: 0 <= k < |procs[child].areas| ==> procs[child].areas[k].phys in live
      ensures Elements(AllBlocks(old(procs)[child].areas)) <= Elements(AllBlocks(procs[child].areas))
      ensures live == old(live) + (Elements(AllBlocks(procs[child].areas)) - Elements(AllBlocks(old(procs)[child].areas)))
    {
      hide Owned, Blocks, AreaBlocks, AllBlocks, Elements;
      ghost var live0, copies := live, procs[child].areas;
      var phys := Kmalloc();
      MoreLive(live0, procs, live);
      NotOwned(live0, procs, phys);
      var node := AddVma(child, a.virt, a.size, phys, a.prot, true);
      ghost var copy := Area(node, a.virt, a.size, a.prot, phys, true);
      assert procs[child].areas == copies + [copy];
      NewBlocks(live0, old(procs), child, copy);
      Copy(phys, a.phys);
    }

    /** The loop of `sys_fork`: all areas that are not at a fixed address are copied. */
    method CopyAreas(areas: seq<Area>, child: nat, ghost before: set<nat>)
      requires Sound() && child in procs && procs[child].areas == [] && before <= live && Regular(areas)
      requires forall k :: 0 <= k < |areas| && areas[k].owned ==> areas[k].phys in before
      modifies this
      ensures Sound() && child in procs && procs == old(procs)[child := old(procs)[child].(areas := procs[child].areas)]
      ensures forall b :: b in before ==> Content(contents, b) == Content(old(contents), b)
      ensures Copies(procs[child].areas, Copied(areas), contents, old(contents))
      ensures live == old(live) + Elements(AllBlocks(procs[child].areas))
    {
      hide Owned, Blocks, AreaBlocks, AllBlocks, Elements;
      var k: nat := 0;
      assert areas[..0] == [] && Copied([]) == [];
      NoElements();
      while k < |areas|
        invariant k <= |areas| && Sound() && child in procs && before <= live
        invariant procs == old(procs)[child := old(procs)[child].(areas := procs[child].areas)]
        invariant forall b :: b in before ==> Content(contents, b) == Content(old(contents), b)
        invariant Copies(procs[child].areas, Copied(areas[..k]), contents, old(contents))
        invariant forall j :: 0 <= j < |procs[child].areas| ==> procs[child].areas[j].phys in live
        invariant live == old(live) + Elements(AllBlocks(procs[child].areas))
      {
        CopiedStep(areas, k);
        if areas[k].virt == SIGNAL || areas[k].virt == DEVICE {
          k := k + 1;
          continue;
        }
        ghost var now, own := live, Elements(AllBlocks(procs[child].areas));
        CopyArea(child, areas[k], before, old(contents), Copied(areas[..k]));
        SetsGrow(old(live), now, live, own, Elements(AllBlocks(procs[child].areas)));
        k := k + 1;
      }
      assert areas[..k] == areas;
    }

    /** `sys_fork`: the child has copies of the parent's areas, over blocks of its own with the same contents, the two
        fixed areas, and a copy of the kernel stack.  The areas are a permutation of the parent's exactly when these
        are in standard form.  What is allocated is the child's own, but for data, user stack and root table, which
        its record names and nothing frees. */
    method SysFork(parent: nat, child: nat) returns (data: nat, ustack: nat, pgd: nat)
      requires Safe() && parent in procs && child !in procs
      modifies this
      ensures Safe() && child in procs && Started(procs[child].areas)
      ensures procs == old(procs)[child := procs[child]]
      ensures Shapes(procs[child].areas) == Shapes(old(procs)[parent].areas) <==> Standard(old(procs)[parent].areas)
      ensures var n := |Copied(old(procs)[parent].areas)|;
        n <= |procs[child].areas| && Copies(procs[child].areas[..n], Copied(old(procs)[parent].areas), contents, old(contents))
      ensures forall b :: b in old(live) ==> Content(contents, b) == Content(old(contents), b)
      ensures Content(contents, procs[child].kstack) == Content(old(contents), old(procs)[parent].kstack)
      ensures live == old(live) + Elements(Blocks(procs[child])) + {data, ustack, pgd}
    {
      hide Owned, Blocks, AreaBlocks, Shapes, AllBlocks, Elements, Started, Regular, Copies;
      ghost var live0, contents0 := live, contents;
      var areas := procs[parent].areas;
      OwnedPhysLive(live, procs, parent);
      AreasAreOwned(live, procs, parent);
      data, ustack, pgd := ThreadCreate(child);
      CopyAreas(areas, child, live0);
      ghost var copies := procs[child].areas;
      AddFixed(child);
      ghost var two := procs[child].areas[|copies|..];
      ForkedAreas(areas, copies, two, contents, contents0);
      assert procs[child].areas == copies + two && procs[child].areas[..|copies|] == copies;
      AreasAreOwned(live, procs, child);
      CopiesStay(copies, two, Copied(areas), contents, contents0, procs[child].kstack, procs[parent].kstack);
      Copy(procs[child].kstack, procs[parent].kstack);
      ForkedBlocks(copies, two, procs[child]);
      StartedIsRegular(procs[child].areas);
    }

    /** `kill_zombies` for one thread: its kernel stack and its areas are freed, each block once. */
    method Reap(pid: nat)
      requires Safe() && pid in procs
      modifies `live, `procs
      ensures Safe() && procs == old(procs) - {pid}
      ensures live == old(live) - Elements(Blocks(old(procs)[pid]))
    {
      var p := procs[pid];
      AreasAreOwned(live, procs, pid);
      DropKeepsOwned(live, procs, pid);
      assert Blocks(p)[0] == p.kstack;
      StillLive([], [p.kstack], AllBlocks(p.areas));
      Kfree(p.kstack);
      FreeAreas(p.areas);
      procs := procs - {pid};
    }
  }

  lemma {:induction false} OwnedPhysLive(live: set<nat>, procs: map<nat, Proc>, p: nat)
    requires Owned(live, procs) && p in procs
    ensures forall k :: 0 <= k < |procs[p].areas| && procs[p].areas[k].owned ==> procs[p].areas[k].phys in live
  {
    forall k | 0 <= k < |procs[p].areas| && procs[p].areas[k].owned
      ensures procs[p].areas[k].phys in live
    {
      AllBlocksAt(procs[p].areas, k);
      assert AreaBlocks(procs[p].areas[k])[0] == procs[p].areas[k].phys;
      assert procs[p].areas[k].phys in AllBlocks(procs[p].areas);
      assert procs[p].areas[k].phys in Blocks(procs[p]);
    }
  }

  lemma {:induction false} CopiedStep(areas: seq<Area>, k: nat)
    requires k < |areas|
    ensures Copied(areas[..k + 1]) == Copied(areas[..k]) + (if Fixed(areas[k]) then [] else [areas[k]])
  {
    assert areas[..k + 1] == areas[..k] + [areas[k]];
    CopiedConcat(areas[..k], [areas[k]]);
  }

  lemma {:induction false} CopiedConcat(a: seq<Area>, b: seq<Area>)
    ensures Copied(a + b) == Copied(a) + Copied(b)
  {
    hide Fixed;
    if a == [] {
      assert a + b == b;
    } else {
      CopiedHead(a);
      CopiedHead(a + b);
      hide Copied;
      CopiedConcat(a[1..], b);
      assert (a + b)[0] == a[0] && (a + b)[1..] == a[1..] + b;
      ConsConcat(a[0], Copied(a[1..]), Copied(b));
    }
  }

  lemma {:induction false} ConsConcat(x: Area, s: seq<Area>, t: seq<Area>)
    ensures [x] + (s + t) == [x] + s + t
  {
  }

  lemma {:induction false} CopiedHead(a: seq<Area>)
    requires a != []
    ensures Copied(a) == if Fixed(a[0]) then Copied(a[1..]) else [a[0]] + Copied(a[1..])
  {
  }

  lemma {:induction false} CopiesShapes(copies: seq<Area>, originals: seq<Area>, after: map<nat, int>, before: map<nat, int>)
    requires Copies(copies, originals, after, before)
    ensures ShapeList(copies) == ShapeList(originals)
  {
  }

  lemma {:induction false} FixedPair(two: seq<Area>)
    requires |two| == 2 && ShapeOf(two[0]) == DEVICE_SHAPE && ShapeOf(two[1]) == SIGNAL_SHAPE
    ensures ShapeList(two) == [DEVICE_SHAPE, SIGNAL_SHAPE] && FixedAreas(two) == two
  {
    assert FixedAreas(two[1..]) == [two[1]];
    assert FixedAreas(two) == [two[0]] + FixedAreas(two[1..]);
  }

  lemma {:induction false} CopiesWhole(areas: seq<Area>, copies: seq<Area>, after: map<nat, int>, before: map<nat, int>, k: nat)
    requires Regular(areas) && Copies(copies, Copied(areas), after, before) && k < |copies|
    ensures copies[k].size % PAGE == 0 && copies[k].owned
  {
    hide Standard, Copied;
    CopiedAreNotFixed(areas);
    assert Copied(areas)[k] in areas && ShapeOf(copies[k]) == ShapeOf(Copied(areas)[k]);
  }

  lemma {:induction false} ForkedShapes(areas: seq<Area>, copies: seq<Area>, two: seq<Area>)
    requires ShapeList(copies) == ShapeList(Copied(areas)) && ShapeList(two) == [DEVICE_SHAPE, SIGNAL_SHAPE]
    ensures Shapes(copies + two) == Shapes(areas) <==> Standard(areas)
  {
    CopiedAndFixed(areas);
    ShapesConcat(copies, two);
    assert Shapes(two) == multiset{DEVICE_SHAPE, SIGNAL_SHAPE};
    assert Shapes(copies) == Shapes(Copied(areas));
    hide FixedAreas, Copied, ShapeList, Shapes;
    Cancel(Shapes(copies), Shapes(two), Shapes(FixedAreas(areas)));
  }

  lemma {:induction false} Cancel(x: multiset<Shape>, y: multiset<Shape>, z: multiset<Shape>)
    ensures x + y == x + z <==> y == z
  {
    if x + y == x + z {
      forall e
        ensures y[e] == z[e]
      {
        assert (x + y)[e] == x[e] + y[e] && (x + z)[e] == x[e] + z[e];
      }
    }
  }

  lemma {:induction false} ForkedStandard(areas: seq<Area>, copies: seq<Area>, two: seq<Area>)
    requires ShapeList(copies) == ShapeList(Copied(areas)) && ShapeList(two) == [DEVICE_SHAPE, SIGNAL_SHAPE]
    requires FixedAreas(two) == two
    ensures Standard(copies + two)
  {
    CopiedAreNotFixed(areas);
    FixedConcat(copies, two);
    hide FixedAreas, Copied, ShapeList;
    assert [] + two == two;
  }

  /** The child's areas: the copies, and the two fixed areas set up anew. */
  lemma {:induction false} ForkedAreas(areas: seq<Area>, copies: seq<Area>, two: seq<Area>, after: map<nat, int>, before: map<nat, int>)
    requires Regular(areas) && Copies(copies, Copied(areas), after, before) && |two| == 2
    requires ShapeOf(two[0]) == DEVICE_SHAPE && ShapeOf(two[1]) == SIGNAL_SHAPE
    ensures Started(copies + two) && (Shapes(copies + two) == Shapes(areas) <==> Standard(areas))
  {
    CopiesShapes(copies, Copied(areas), after, before);
    FixedPair(two);
    hide FixedAreas, Copied, ShapeList, Shapes, Standard;
    ForkedShapes(areas, copies, two);
    ForkedStandard(areas, copies, two);
    forall k | 0 <= k < |copies|
      ensures copies[k].size % PAGE == 0 && copies[k].owned
    {
      CopiesWhole(areas, copies, after, before, k);
    }
  }

  /** What a mapping adds to the areas of a thread. */
  lemma {:induction false} MappingAdds(areas: seq<Area>, a: Area, size: nat)
    requires Regular(areas) && a.owned && a.size == RoundUp(size)
    ensures Regular(areas + [a]) && ShapeList(areas + [a]) == ShapeList(areas) + [ShapeOf(a)]
    ensures Standard(areas) ==> (Standard(areas + [a]) <==> a.virt != DEVICE && a.virt != SIGNAL)
  {
    hide Standard;
    if Standard(areas) {
      StandardGrows(areas, a);
    }
  }

  lemma {:induction false} StandardGrows(areas: seq<Area>, a: Area)
    requires Standard(areas)
    ensures Standard(areas + [a]) <==> !Fixed(a)
  {
    FixedConcat(areas, [a]);
    if Fixed(a) {
      assert FixedAreas([a]) == [a];
      ShapesConcat(FixedAreas(areas), [a]);
      assert ShapeList([a]) == [ShapeOf(a)];
      assert |Shapes(FixedAreas(areas) + [a])| == 3 && |multiset{DEVICE_SHAPE, SIGNAL_SHAPE}| == 2;
    } else {
      assert FixedAreas([a]) == [] && FixedAreas(areas) + [] == FixedAreas(areas);
    }
  }

  lemma {:induction false} NoBlocks()
    ensures AllBlocks([]) == []
  {
  }

  /** In a list without repetitions, a middle part is apart from what comes before and after. */
  lemma {:induction false} StillLive(a: seq<nat>, b: seq<nat>, c: seq<nat>)
    requires Distinct(a + b + c)
    ensures Distinct(b) && forall x :: x in b ==> x !in a && x !in c
  {
    var l := a + b + c;
    forall x | x in b
      ensures x !in a && x !in c
    {
      var i :| 0 <= i < |b| && b[i] == x;
      assert l[|a| + i] == x;
      forall j | 0 <= j < |a|
        ensures a[j] != x
      {
        assert l[j] == a[j];
      }
      forall j | 0 <= j < |c|
        ensures c[j] != x
      {
        assert l[|a| + |b| + j] == c[j];
      }
    }
    forall i, j | 0 <= i < j < |b|
      ensures b[i] != b[j]
    {
      assert l[|a| + i] == b[i] && l[|a| + j] == b[j];
    }
  }

  lemma {:induction false} NotOwned(live: set<nat>, procs: map<nat, Proc>, b: nat)
    requires Owned(live, procs) && b !in live
    ensures forall q :: q in procs ==> b !in Blocks(procs[q])
  {
  }

  /** A fresh block is not owned by anyone, nor by a new thread with another kernel stack. */
  lemma {:induction false} NotOwnedYet(live: set<nat>, procs: map<nat, Proc>, pid: nat, kstack: nat, b: nat, now: map<nat, Proc>)
    requires Owned(live, procs) && b !in live && b != kstack && now == procs[pid := Proc(kstack, [])]
    ensures forall q :: q in now ==> b !in Blocks(now[q])
  {
    assert Blocks(Proc(kstack, [])) == [kstack];
    NotOwned(live, procs, b);
    hide Blocks, Owned;
  }

  /** Nor by a thread that has taken a first area of other blocks. */
  lemma {:induction false} StillNotOwned(procs: map<nat, Proc>, pid: nat, a: Area, b: nat, now: map<nat, Proc>)
    requires pid in procs && procs[pid].areas == [] && now == procs[pid := Proc(procs[pid].kstack, [a])]
    requires b !in AreaBlocks(a) && forall q :: q in procs ==> b !in Blocks(procs[q])
    ensures forall q :: q in now ==> b !in Blocks(now[q])
  {
    assert Blocks(procs[pid])[0] == procs[pid].kstack;
    BlocksOfOne(procs[pid].kstack, a);
    hide Blocks, AreaBlocks;
  }

  lemma {:induction false} MoreLive(live: set<nat>, procs: map<nat, Proc>, more: set<nat>)
    requires Owned(live, procs) && live <= more
    ensures Owned(more, procs)
  {
  }

  lemma {:induction false} AreasAreOwned(live: set<nat>, procs: map<nat, Proc>, p: nat)
    requires Owned(live, procs) && p in procs
    ensures Distinct(AllBlocks(procs[p].areas)) && Elements(AllBlocks(procs[p].areas)) <= live
    ensures procs[p].kstack in live && procs[p].kstack !in AllBlocks(procs[p].areas)
  {
    var l := AllBlocks(procs[p].areas);
    assert Blocks(procs[p]) == [procs[p].kstack] + l + [];
    StillLive([procs[p].kstack], l, []);
    assert Blocks(procs[p])[0] == procs[p].kstack;
  }

  lemma {:induction false} BlocksOfOne(kstack: nat, a: Area)
    ensures forall b :: b in Blocks(Proc(kstack, [a])) <==> b == kstack || b in AreaBlocks(a)
  {
    assert AllBlocks([a]) == AreaBlocks(a) + [];
  }

  lemma {:induction false} SetsJoin(before: set<nat>, made: set<nat>, after: set<nat>, own: set<nat>, k: nat, pgd: nat, data: nat, ustack: nat)
    requires made == before + {data, ustack, pgd, k} && after == made + own && {data, ustack} <= own
    ensures after == before + ({k} + own) + {pgd}
  {
    assert data in own && ustack in own;
  }

  lemma {:induction false} SetsReplace(cleared: set<nat>, made: set<nat>, after: set<nat>, own: set<nat>, data: nat, ustack: nat)
    requires made == cleared + {data} + {ustack} && after == made + own && {data, ustack} <= own
    ensures after == cleared + own
  {
    assert data in own && ustack in own;
  }

  lemma {:induction false} NoElements()
    ensures Elements(AllBlocks([])) == {}
  {
  }

  lemma {:induction false} SetsGrow(before: set<nat>, now: set<nat>, after: set<nat>, own: set<nat>, more: set<nat>)
    requires now == before + own && after == now + (more - own) && own <= more
    ensures after == before + more
  {
  }

  /** A new area of fresh blocks. */
  lemma {:induction false} NewBlocks(live: set<nat>, procs: map<nat, Proc>, p: nat, a: Area)
    requires Owned(live, procs) && p in procs && a.phys !in live && a.node !in live && a.owned
    ensures var own, more := Elements(AllBlocks(procs[p].areas)), Elements(AllBlocks(procs[p].areas + [a]));
      own <= more && more - own == {a.phys, a.node} && own <= live
  {
    AreasAreOwned(live, procs, p);
    ElementsGrow(procs[p].areas, a);
    AreaBlocksAre(a);
  }

  /** The kernel stack is none of the copies, so writing it leaves them as they are. */
  lemma {:induction false} CopiesStay(copies: seq<Area>, two: seq<Area>, originals: seq<Area>, after: map<nat, int>, before: map<nat, int>, k: nat, from: nat)
    requires Copies(copies, originals, after, before) && k !in AllBlocks(copies + two)
    ensures Copies(copies, originals, after[k := Content(after, from)], before)
  {
    forall i | 0 <= i < |copies|
      ensures copies[i].phys != k
    {
      AllBlocksAre(copies + two, k);
      assert (copies + two)[i] == copies[i];
    }
  }

  lemma {:induction false} ForkedBlocks(copies: seq<Area>, two: seq<Area>, p: Proc)
    requires |two| == 2 && !two[0].owned && !two[1].owned && p.areas == copies + two
    ensures Elements(Blocks(p)) == {p.kstack} + Elements(AllBlocks(copies)) + {two[0].node, two[1].node}
  {
    BlocksElements(p);
    assert p.areas == copies + [two[0]] + [two[1]];
    hide AllBlocks, AreaBlocks, Blocks, Elements;
    ElementsGrow(copies, two[0]);
    ElementsGrow(copies + [two[0]], two[1]);
    AreaBlocksAre(two[0]);
    AreaBlocksAre(two[1]);
  }

  lemma {:induction false} StartedIsRegular(areas: seq<Area>)
    requires Started(areas)
    ensures Regular(areas)
  {
  }

  lemma {:induction false} BlocksElements(p: Proc)
    ensures Elements(Blocks(p)) == {p.kstack} + Elements(AllBlocks(p.areas))
  {
    ElementsConcat([p.kstack], AllBlocks(p.areas));
  }

  lemma {:induction false} FourBlocks(areas: seq<Area>)
    requires |areas| == 4 && areas[0].owned && areas[1].owned && !areas[2].owned && !areas[3].owned
    ensures Elements(AllBlocks(areas)) ==
      {areas[0].phys, areas[0].node, areas[1].phys, areas[1].node, areas[2].node, areas[3].node}
  {
    var a := areas[..1];
    var b := a + [areas[1]];
    var c := b + [areas[2]];
    assert areas == c + [areas[3]] && a == [] + [areas[0]];
    NoBlocks();
    hide AllBlocks, AreaBlocks;
    ElementsGrow([], areas[0]);
    ElementsGrow(a, areas[1]);
    ElementsGrow(b, areas[2]);
    ElementsGrow(c, areas[3]);
    AreaBlocksAre(areas[0]);
    AreaBlocksAre(areas[1]);
    AreaBlocksAre(areas[2]);
    AreaBlocksAre(areas[3]);
  }

  /** The four areas that are set up are the ones that the fault handler and `sys_mmap` find in a new thread. */
  lemma {:induction false} SetUpForFaults(areas: seq<Area>, size: nat, data: nat, ustack: nat, wrapper: nat)
    requires ShapeList(areas) == [Shape(0, RoundUp(size), 7), Shape(STACK, STACK_SIZE, 7), DEVICE_SHAPE, SIGNAL_SHAPE]
    ensures var vmas := DemandPaging.ThreadAreas(RoundUp(size), data, ustack, wrapper);
      |areas| == |vmas| && forall k :: 0 <= k < |vmas| ==> ShapeOf(areas[k]) == Shape(vmas[k].virt, vmas[k].size, vmas[k].prot)
  {
    forall k | 0 <= k < |areas|
      ensures ShapeOf(areas[k]) == ShapeList(areas)[k]
    {
    }
  }

  lemma {:induction false} StandardSetUp(areas: seq<Area>, size: nat)
    requires |areas| == 4 && ShapeOf(areas[0]) == Shape(0, RoundUp(size), 7) && ShapeOf(areas[1]) == Shape(STACK, STACK_SIZE, 7)
    requires ShapeOf(areas[2]) == DEVICE_SHAPE && ShapeOf(areas[3]) == SIGNAL_SHAPE && areas[0].owned && areas[1].owned
    ensures Started(areas)
    ensures ShapeList(areas) == [Shape(0, RoundUp(size), 7), Shape(STACK, STACK_SIZE, 7), DEVICE_SHAPE, SIGNAL_SHAPE]
  {
    assert FixedAreas(areas[3..]) == [areas[3]];
    assert FixedAreas(areas[2..]) == [areas[2]] + FixedAreas(areas[3..]);
    assert FixedAreas(areas[1..]) == FixedAreas(areas[2..]);
    assert FixedAreas(areas) == [areas[2], areas[3]];
    assert ShapeList([areas[2], areas[3]]) == [DEVICE_SHAPE, SIGNAL_SHAPE];
  }
}
