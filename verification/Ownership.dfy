/** Who owns which allocated block: kernel stacks, area records, and the memory behind areas. */
module Ownership {
  import opened MemoryMap
  import opened Lists

  /** An area record: the block it is stored in, its range and protection, and the block or the
      physical address behind it.  Only an `owned` area's memory is freed with it. */
  datatype Area = Area(node: nat, virt: nat, size: nat, prot: nat, phys: nat, owned: bool)

  datatype Proc = Proc(kstack: nat, areas: seq<Area>)

  /** The blocks of an area, in the order they are freed. */
  function AreaBlocks(a: Area): seq<nat> {
    (if a.owned then [a.phys] else []) + [a.node]
  }

  function AllBlocks(areas: seq<Area>): seq<nat> {
    if areas == [] then [] else AreaBlocks(areas[0]) + AllBlocks(areas[1..])
  }

  function Blocks(p: Proc): seq<nat> {
    [p.kstack] + AllBlocks(p.areas)
  }

  /** Every block that a thread owns is allocated, owned once by it, and owned by no other thread. */
  ghost predicate Owned(live: set<nat>, procs: map<nat, Proc>) {
    && (forall p :: p in procs ==> Distinct(Blocks(procs[p])) && forall b :: b in Blocks(procs[p]) ==> b in live)
    && (forall p, q, b :: p in procs && q in procs && b in Blocks(procs[p]) && b in Blocks(procs[q]) ==> p == q)
  }

  function Elements(l: seq<nat>): set<nat> {
    set b | b in l
  }

  lemma {:induction false} ElementsConcat(a: seq<nat>, b: seq<nat>)
    ensures Elements(a + b) == Elements(a) + Elements(b)
  {
  }

  /** What is freed with an area: its record, and its memory if it has some of its own. */
  lemma {:induction false} AreaBlocksAre(a: Area)
    ensures Elements(AreaBlocks(a)) == if a.owned then {a.phys, a.node} else {a.node}
  {
  }

  lemma {:induction false} ElementsGrow(areas: seq<Area>, a: Area)
    ensures Elements(AllBlocks(areas + [a])) == Elements(AllBlocks(areas)) + Elements(AreaBlocks(a))
  {
    AllBlocksConcat(areas, [a]);
    assert AllBlocks([a]) == AreaBlocks(a) + [];
    hide AllBlocks, AreaBlocks;
    ElementsConcat(AllBlocks(areas), AreaBlocks(a));
  }

  /** The blocks of a thread are its kernel stack, the records of its areas, and the memory that they own. */
  lemma {:induction false} BlocksAre(p: Proc, b: nat)
    ensures b in Blocks(p) <==>
      b == p.kstack || exists k :: 0 <= k < |p.areas| && (b == p.areas[k].node || (p.areas[k].owned && b == p.areas[k].phys))
  {
    AllBlocksAre(p.areas, b);
  }

  lemma {:induction false} AllBlocksAre(areas: seq<Area>, b: nat)
    ensures b in AllBlocks(areas) <==>
      exists k :: 0 <= k < |areas| && (b == areas[k].node || (areas[k].owned && b == areas[k].phys))
  {
    if areas != [] {
      AllBlocksAre(areas[1..], b);
      if b in AllBlocks(areas[1..]) {
        var k :| 0 <= k < |areas[1..]| && (b == areas[1..][k].node || (areas[1..][k].owned && b == areas[1..][k].phys));
        assert areas[k + 1] == areas[1..][k];
      }
      if k :| 0 <= k < |areas| && (b == areas[k].node || (areas[k].owned && b == areas[k].phys)) {
        assert k > 0 ==> areas[1..][k - 1] == areas[k];
      }
    }
  }

  lemma {:induction false} AllBlocksConcat(a: seq<Area>, b: seq<Area>)
    ensures AllBlocks(a + b) == AllBlocks(a) + AllBlocks(b)
  {
    if a == [] {
      assert a + b == b;
    } else {
      AllBlocksConcat(a[1..], b);
      assert (a + b)[1..] == a[1..] + b;
    }
  }

  lemma {:induction false} AllBlocksAt(areas: seq<Area>, k: nat)
    requires k < |areas|
    ensures AllBlocks(areas[..k + 1]) == AllBlocks(areas[..k]) + AreaBlocks(areas[k])
    ensures AllBlocks(areas) == AllBlocks(areas[..k]) + AreaBlocks(areas[k]) + AllBlocks(areas[k + 1..])
  {
    AllBlocksConcat(areas[..k], [areas[k]]);
    AllBlocksConcat(areas[..k + 1], areas[k + 1..]);
    assert areas[..k + 1] == areas[..k] + [areas[k]];
    assert areas == areas[..k + 1] + areas[k + 1..];
    assert AllBlocks([areas[k]]) == AreaBlocks(areas[k]) + [];
  }

  /** A thread may take new blocks at the end of its areas. */
  lemma {:induction false} GrowKeepsOwned(live: set<nat>, procs: map<nat, Proc>, p: nat, a: Area, more: set<nat>)
    requires Owned(live, procs) && p in procs && Distinct(AreaBlocks(a))
    requires forall b :: b in AreaBlocks(a) ==> b in more && forall q :: q in procs ==> b !in Blocks(procs[q])
    requires live <= more
    ensures Owned(more, procs[p := procs[p].(areas := procs[p].areas + [a])])
  {
    var grown := procs[p].(areas := procs[p].areas + [a]);
    AllBlocksConcat(procs[p].areas, [a]);
    assert AllBlocks([a]) == AreaBlocks(a) + [];
    assert Blocks(grown) == Blocks(procs[p]) + AreaBlocks(a);
    DistinctConcat(Blocks(procs[p]), AreaBlocks(a));
    var after := procs[p := grown];
    hide Blocks, AreaBlocks, Distinct;
    forall q, b | q in after && b in Blocks(after[q])
      ensures b in more
      ensures b in AreaBlocks(a) ==> q == p
      ensures b !in AreaBlocks(a) ==> b in Blocks(procs[q])
    {
    }
  }

  lemma {:induction false} DistinctConcat(a: seq<nat>, b: seq<nat>)
    requires Distinct(a) && Distinct(b) && forall x :: x in b ==> x !in a
    ensures Distinct(a + b)
  {
    forall i, j | 0 <= i < j < |a + b|
      ensures (a + b)[i] != (a + b)[j]
    {
      if i < |a| <= j {
        assert b[j - |a|] in b && a[i] in a;
      }
    }
  }

  lemma {:induction false} NewProcKeepsOwned(live: set<nat>, procs: map<nat, Proc>, p: nat, kstack: nat, more: set<nat>)
    requires Owned(live, procs) && p !in procs && kstack !in live && live <= more && kstack in more
    ensures Owned(more, procs[p := Proc(kstack, [])])
  {
    assert Blocks(Proc(kstack, [])) == [kstack];
  }

  /** Once all blocks of a thread are freed and it is gone, the rest is as before. */
  lemma {:induction false} DropKeepsOwned(live: set<nat>, procs: map<nat, Proc>, p: nat)
    requires Owned(live, procs) && p in procs
    ensures Owned(live - Elements(Blocks(procs[p])), procs - {p})
  {
  }

  /** Once the areas of a thread are freed, it keeps its kernel stack. */
  lemma {:induction false} ClearKeepsOwned(live: set<nat>, procs: map<nat, Proc>, p: nat)
    requires Owned(live, procs) && p in procs
    ensures Owned(live - Elements(AllBlocks(procs[p].areas)), procs[p := procs[p].(areas := [])])
  {
    var cleared := procs[p].(areas := []);
    assert Blocks(cleared) == [procs[p].kstack];
    assert Blocks(procs[p])[0] == procs[p].kstack;
    assert forall i :: 0 <= i < |AllBlocks(procs[p].areas)| ==> Blocks(procs[p])[i + 1] == AllBlocks(procs[p].areas)[i];
    assert procs[p].kstack !in AllBlocks(procs[p].areas);
  }

  // ---------------------------------------------------------------- what a fork copies

  /** Range and protection. */
  datatype Shape = Shape(virt: nat, size: nat, prot: nat)

  function ShapeOf(a: Area): Shape {
    Shape(a.virt, a.size, a.prot)
  }

  function ShapeList(areas: seq<Area>): seq<Shape> {
    seq(|areas|, i requires 0 <= i < |areas| => ShapeOf(areas[i]))
  }

  function Shapes(areas: seq<Area>): multiset<Shape> {
    multiset(ShapeList(areas))
  }

  predicate Fixed(a: Area) {
    a.virt == SIGNAL || a.virt == DEVICE
  }

  function Copied(areas: seq<Area>): seq<Area> {
    if areas == [] then [] else (if Fixed(areas[0]) then [] else [areas[0]]) + Copied(areas[1..])
  }

  function FixedAreas(areas: seq<Area>): seq<Area> {
    if areas == [] then [] else (if Fixed(areas[0]) then [areas[0]] else []) + FixedAreas(areas[1..])
  }

  const DEVICE_SHAPE := Shape(DEVICE, DEVICE_SIZE, 3)
  const SIGNAL_SHAPE := Shape(SIGNAL, SIGNAL_SIZE, 5)

  /** The areas at the two fixed addresses are exactly the device and the signal wrapper. */
  predicate Standard(areas: seq<Area>) {
    Shapes(FixedAreas(areas)) == multiset{DEVICE_SHAPE, SIGNAL_SHAPE}
  }

  /** Sizes are whole pages, and only areas at the two fixed addresses may lie over memory of their own. */
  predicate Regular(areas: seq<Area>) {
    forall k :: 0 <= k < |areas| ==> areas[k].size % PAGE == 0 && (areas[k].owned || Fixed(areas[k]))
  }

  /** What holds of the areas of every thread that `exec_thread`, `sys_exec` or `sys_fork` has set up. */
  predicate Started(areas: seq<Area>) {
    Standard(areas) && Regular(areas)
  }

  function Content(contents: map<nat, int>, b: nat): int {
    if b in contents then contents[b] else 0
  }

  /** The copies have the ranges, protections and contents of the originals, each over a block of its own. */
  ghost predicate Copies(copies: seq<Area>, originals: seq<Area>, after: map<nat, int>, before: map<nat, int>) {
    && |copies| == |originals|
    && (forall k :: 0 <= k < |copies| ==> copies[k].owned && ShapeOf(copies[k]) == ShapeOf(originals[k]))
    && (forall k :: 0 <= k < |copies| ==> Content(after, copies[k].phys) == Content(before, originals[k].phys))
  }

  lemma {:induction false} ShapesConcat(a: seq<Area>, b: seq<Area>)
    ensures Shapes(a + b) == Shapes(a) + Shapes(b)
  {
    assert ShapeList(a + b) == ShapeList(a) + ShapeList(b);
  }

  lemma {:induction false} CopiedAndFixed(areas: seq<Area>)
    ensures Shapes(areas) == Shapes(Copied(areas)) + Shapes(FixedAreas(areas))
  {
    hide Shapes;
    if areas == [] {
      assert [] + areas == areas == Copied(areas) == FixedAreas(areas);
      ShapesConcat(areas, areas);
    } else {
      CopiedAndFixed(areas[1..]);
      assert areas == [areas[0]] + areas[1..];
      ShapesConcat([areas[0]], areas[1..]);
      ShapesConcat([areas[0]], Copied(areas[1..]));
      ShapesConcat([areas[0]], FixedAreas(areas[1..]));
      assert Copied(areas) == (if Fixed(areas[0]) then Copied(areas[1..]) else [areas[0]] + Copied(areas[1..]));
      assert FixedAreas(areas) == (if Fixed(areas[0]) then [areas[0]] + FixedAreas(areas[1..]) else FixedAreas(areas[1..]));
    }
  }

  lemma {:induction false} FixedConcat(a: seq<Area>, b: seq<Area>)
    ensures FixedAreas(a + b) == FixedAreas(a) + FixedAreas(b)
  {
    if a == [] {
      assert a + b == b;
    } else {
      FixedConcat(a[1..], b);
      var h := if Fixed(a[0]) then [a[0]] else [];
      assert (a + b)[0] == a[0] && (a + b)[1..] == a[1..] + b;
      assert h + (FixedAreas(a[1..]) + FixedAreas(b)) == h + FixedAreas(a[1..]) + FixedAreas(b);
    }
  }

  lemma {:induction false} CopiedAreNotFixed(areas: seq<Area>)
    ensures forall k :: 0 <= k < |Copied(areas)| ==> !Fixed(Copied(areas)[k]) && Copied(areas)[k] in areas
    ensures forall copies: seq<Area> :: ShapeList(copies) == ShapeList(Copied(areas)) ==> FixedAreas(copies) == []
  {
    if areas != [] {
      CopiedAreNotFixed(areas[1..]);
    }
    forall copies: seq<Area> | ShapeList(copies) == ShapeList(Copied(areas))
      ensures FixedAreas(copies) == []
    {
      NothingFixed(copies, Copied(areas));
    }
  }

  lemma {:induction false} NothingFixed(copies: seq<Area>, originals: seq<Area>)
    requires ShapeList(copies) == ShapeList(originals) && forall k :: 0 <= k < |originals| ==> !Fixed(originals[k])
    ensures FixedAreas(copies) == []
  {
    if copies != [] {
      assert ShapeList(copies)[0] == ShapeOf(copies[0]) && ShapeList(originals)[0] == ShapeOf(originals[0]);
      assert ShapeList(copies[1..]) == ShapeList(copies)[1..] && ShapeList(originals[1..]) == ShapeList(originals)[1..];
      NothingFixed(copies[1..], originals[1..]);
    }
  }
}
