/** Page allocation and release as whole operations, and runs of them. */
module BuddyRuns {
  import opened Bits
  import opened Lists
  import opened Buddy

  // ---------------------------------------------------------------- the operations

  /** The order used for a request of `size` bytes, found by trying orders upwards from `i`.
      When no order fits, the search leaves order 0. */
  function OrderFrom(size: nat, i: nat): nat
    decreases MAXORDER + 1 - i
  {
    if i > MAXORDER then 0 else if size <= 0x1000 * Pow2(i) then i else OrderFrom(size, i + 1)
  }

  function Order(size: nat): nat {
    OrderFrom(size, 0)
  }

  lemma {:induction false} OrderFromIsLeast(size: nat, i: nat)
    requires forall j :: 0 <= j < i ==> size > 0x1000 * Pow2(j)
    ensures OrderFrom(size, i) <= MAXORDER
    ensures (exists j :: 0 <= j <= MAXORDER && size <= 0x1000 * Pow2(j)) ==>
      size <= 0x1000 * Pow2(OrderFrom(size, i)) && forall j :: 0 <= j < OrderFrom(size, i) ==> size > 0x1000 * Pow2(j)
    ensures !(exists j :: 0 <= j <= MAXORDER && size <= 0x1000 * Pow2(j)) ==> OrderFrom(size, i) == 0
    decreases MAXORDER + 1 - i
  {
    if i <= MAXORDER && size > 0x1000 * Pow2(i) {
      OrderFromIsLeast(size, i + 1);
    }
  }

  /** The chosen order is the least one whose block holds the request; it holds the request exactly
      when the request is at most the largest block. */
  lemma {:induction false} OrderIsLeast(size: nat)
    ensures Order(size) <= MAXORDER
    ensures size <= 0x1000 * Pow2(Order(size)) <==> size <= 0x1000 * Pow2(MAXORDER)
    ensures size <= 0x1000 * Pow2(MAXORDER) ==> forall j :: 0 <= j < Order(size) ==> size > 0x1000 * Pow2(j)
    ensures size > 0x1000 * Pow2(MAXORDER) ==> Order(size) == 0
  {
    OrderFromIsLeast(size, 0);
    assert Pow2(6) == 64 && Pow2(5) == 32 && Pow2(4) == 16 && Pow2(3) == 8 && Pow2(2) == 4 && Pow2(1) == 2;
    assert size <= 0x1000 * Pow2(6) ==> exists j :: 0 <= j <= MAXORDER && size <= 0x1000 * Pow2(j);
  }

  /** A request just above the largest block gets one page. */
  lemma {:induction false} OversizedGetsOnePage()
    ensures 0x40001 > 0x1000 * Pow2(MAXORDER) && Order(0x40001) == 0
  {
    OrderIsLeast(0x40001);
    assert Pow2(6) == 64;
  }

  /** The first order from `v` up whose free list is not empty; MAXORDER + 1 when there is none. */
  ghost function Supply(s: State, v: nat): nat
    requires Shape(s)
    decreases MAXORDER + 1 - v
  {
    if v > MAXORDER || s.free[v] != [] then v else Supply(s, v + 1)
  }

  lemma {:induction false} SupplyIsFirst(s: State, v: nat)
    requires Shape(s)
    ensures v <= Supply(s, v) && (v <= MAXORDER + 1 ==> Supply(s, v) <= MAXORDER + 1)
    ensures forall w :: v <= w < Supply(s, v) && w <= MAXORDER ==> s.free[w] == []
    ensures Supply(s, v) <= MAXORDER ==> s.free[Supply(s, v)] != []
    decreases MAXORDER + 1 - v
  {
    if v <= MAXORDER && s.free[v] == [] {
      SupplyIsFirst(s, v + 1);
    }
  }

  ghost predicate CanAlloc(s: State, size: nat)
    requires Shape(s)
  {
    Supply(s, Order(size)) <= MAXORDER
  }

  /** The frame that a request takes: the first entry of the list that supplies it. */
  ghost function Target(s: State, size: nat): nat
    requires Inv(s, -1) && CanAlloc(s, size)
    ensures Head(s, Target(s, size)) && !s.used[Target(s, size)]
    ensures s.val[Target(s, size)] == Supply(s, Order(size)) >= Order(size)
  {
    var c := Supply(s, Order(size));
    SupplyIsFirst(s, Order(size));
    assert s.free[c][0] in s.free[c];
    s.free[c][0]
  }

  /** The free head `h` is unlinked and held. */
  ghost function Unlink(s: State, h: nat): (t: State)
    requires Shape(s) && h < FRAMES
    ensures Shape(t)
  {
    s.(free := s.free[s.val[h] := Remove(s.free[s.val[h]], h)])
  }

  ghost function SplitDown(s: State, h: nat, v: nat): (t: State)
    requires Shape(s) && h < FRAMES
    ensures Shape(t)
    decreases s.val[h]
  {
    if s.val[h] > v then SplitDown(Split(s, h), h, v) else s
  }

  ghost function MergeUp(s: State, h: nat): (t: State)
    requires Shape(s) && h < FRAMES
    ensures Shape(t)
    decreases MAXORDER - s.val[h]
  {
    if Mergeable(s, h) then MergeUp(Merge(s, h), h) else s
  }

  ghost function SetUsed(s: State, h: nat, u: bool): (t: State)
    requires Shape(s) && h < FRAMES
    ensures Shape(t)
  {
    s.(used := s.used[h := u])
  }

  /** The held head `h` is put at the front of the free list of its order. */
  ghost function Link(s: State, h: nat): (t: State)
    requires Shape(s) && h < FRAMES
    ensures Shape(t)
  {
    s.(free := s.free[s.val[h] := [h] + s.free[s.val[h]]])
  }

  ghost function Alloc(s: State, size: nat): (t: State)
    requires Inv(s, -1) && CanAlloc(s, size)
    ensures Shape(t)
  {
    var h := Target(s, size);
    SetUsed(SplitDown(Unlink(s, h), h, Order(size)), h, true)
  }

  ghost function Free(s: State, h: nat): (t: State)
    requires Shape(s) && h < FRAMES
    ensures Shape(t)
  {
    Link(MergeUp(SetUsed(s, h, false), h), h)
  }

  // ---------------------------------------------------------------- the invariant

  lemma {:induction false} UnlinkKeepsInv(s: State, h: nat)
    requires Inv(s, -1) && Head(s, h) && !s.used[h]
    ensures Inv(Unlink(s, h), h)
  {
    var v := s.val[h];
    RemoveMembers(s.free[v], h);
    var t := Unlink(s, h);
    forall f, g | 0 <= f < FRAMES && Head(t, g) && InBlock(t, f, g)
      ensures t.owner[f] == g
    {
      assert InBlock(s, f, g);
    }
    forall f | 0 <= f < FRAMES
      ensures Head(t, t.owner[f]) && InBlock(t, f, t.owner[f])
    {
      assert Head(s, s.owner[f]) && InBlock(s, f, s.owner[f]);
    }
  }

  lemma {:induction false} SamePartition(s: State, t: State)
    requires Shape(s) && Shape(t) && s.val == t.val && s.owner == t.owner
    requires Partition(s) && Leftovers(s)
    ensures Partition(t) && Leftovers(t)
  {
    forall f, g | 0 <= f < FRAMES && Head(t, g) && InBlock(t, f, g)
      ensures t.owner[f] == g
    {
      assert InBlock(s, f, g);
    }
    forall f | 0 <= f < FRAMES
      ensures Head(t, t.owner[f]) && InBlock(t, f, t.owner[f])
    {
      assert Head(s, s.owner[f]) && InBlock(s, f, s.owner[f]);
    }
  }

  lemma {:induction false} ReleaseKeepsInv(s: State, h: nat)
    requires Inv(s, -1) && Head(s, h) && s.used[h]
    ensures Inv(SetUsed(s, h, false), h)
  {
    SamePartition(s, SetUsed(s, h, false));
  }

  lemma {:induction false} ClaimKeepsInv(s: State, h: nat)
    requires Inv(s, h) && Head(s, h)
    ensures Inv(SetUsed(s, h, true), -1)
  {
    SamePartition(s, SetUsed(s, h, true));
  }

  lemma {:induction false} LinkKeepsInv(s: State, h: nat)
    requires Inv(s, h) && Head(s, h) && !s.used[h]
    ensures Inv(Link(s, h), -1)
  {
    var t := Link(s, h);
    SamePartition(s, t);
    assert h !in s.free[s.val[h]];
    forall w: nat, g: nat | w <= MAXORDER
      ensures g in t.free[w] <==> Head(t, g) && t.val[g] == w && !t.used[g] && g != -1
    {
      assert g in s.free[w] <==> Head(s, g) && s.val[g] == w && !s.used[g] && g != h;
    }
  }

  // ---------------------------------------------------------------- what an operation changes

  /** Frame `f` lies in a free block. */
  ghost predicate FreeFrame(s: State, f: nat)
    requires Shape(s)
  {
    f < FRAMES && !s.used[s.owner[f]]
  }

  /** `h` heads a block that is handed out or reserved. */
  ghost predicate UsedHead(s: State, h: nat)
    requires Shape(s)
  {
    Head(s, h) && s.used[h]
  }

  /** Only free blocks were cut differently: used blocks and the set of free frames are the same. */
  ghost predicate Recut(s: State, t: State)
    requires Shape(s) && Shape(t)
  {
    && (forall g: nat :: UsedHead(s, g) <==> UsedHead(t, g))
    && (forall g: nat :: UsedHead(s, g) ==> s.val[g] == t.val[g])
    && (forall f: nat :: FreeFrame(s, f) <==> FreeFrame(t, f))
  }

  lemma {:induction false} SplitRecuts(s: State, h: nat)
    requires Inv(s, h) && Head(s, h) && !s.used[h] && s.val[h] > 0
    ensures Recut(s, Split(s, h))
  {
    var b := Flip(h, s.val[h] - 1);
    SplitShape(s, h);
    forall f: nat | f < FRAMES
      ensures FreeFrame(s, f) <==> FreeFrame(Split(s, h), f)
      ensures Head(Split(s, h), f) <==> Head(s, f) || f == b
    {
      assert Head(s, s.owner[f]);
      SplitOwner(s, h, f);
      FlipBlock(h, s.val[h] - 1);
    }
  }

  lemma {:induction false} MergeRecuts(s: State, h: nat)
    requires Inv(s, h) && Head(s, h) && !s.used[h] && Mergeable(s, h)
    ensures Recut(s, Merge(s, h))
  {
    MergeSafety(s, h);
    FlipBlock(h, s.val[h]);
  }

  lemma {:induction false} SplitDownKeeps(s: State, h: nat, v: nat)
    requires Inv(s, h) && Head(s, h) && !s.used[h] && s.val[h] >= v
    ensures Inv(SplitDown(s, h, v), h) && Head(SplitDown(s, h, v), h)
    ensures SplitDown(s, h, v).val[h] == v && !SplitDown(s, h, v).used[h]
    ensures Recut(s, SplitDown(s, h, v))
    decreases s.val[h]
  {
    if s.val[h] > v {
      SplitKeepsInv(s, h);
      SplitRecuts(s, h);
      FlipBlock(h, s.val[h] - 1);
      SplitDownKeeps(Split(s, h), h, v);
    }
  }

  lemma {:induction false} MergeUpKeeps(s: State, h: nat)
    requires Inv(s, h) && Head(s, h) && !s.used[h]
    ensures Inv(MergeUp(s, h), h) && Head(MergeUp(s, h), h) && !MergeUp(s, h).used[h]
    ensures !Mergeable(MergeUp(s, h), h)
    ensures Recut(s, MergeUp(s, h))
    decreases MAXORDER - s.val[h]
  {
    if Mergeable(s, h) {
      MergeKeepsInv(s, h);
      MergeRecuts(s, h);
      MergeUpKeeps(Merge(s, h), h);
    }
  }

  /** Allocation: a free block of the least fitting order becomes used, and nothing else changes. */
  lemma {:induction false} AllocEffect(s: State, size: nat)
    requires Inv(s, -1) && CanAlloc(s, size)
    ensures Inv(Alloc(s, size), -1)
    ensures !UsedHead(s, Target(s, size)) && UsedHead(Alloc(s, size), Target(s, size))
    ensures Alloc(s, size).val[Target(s, size)] == Order(size)
    ensures forall g: nat :: UsedHead(Alloc(s, size), g) <==> UsedHead(s, g) || g == Target(s, size)
    ensures forall g: nat :: UsedHead(s, g) ==> Alloc(s, size).val[g] == s.val[g]
    ensures forall f: nat :: FreeFrame(Alloc(s, size), f) <==>
      FreeFrame(s, f) && Up(f, Order(size)) != Up(Target(s, size), Order(size))
  {
    var h := Target(s, size);
    var u := Unlink(s, h);
    UnlinkKeepsInv(s, h);
    assert Recut(s, u);
    SplitDownKeeps(u, h, Order(size));
    var w := SplitDown(u, h, Order(size));
    ClaimKeepsInv(w, h);
    forall f: nat | f < FRAMES
      ensures FreeFrame(Alloc(s, size), f) <==> FreeFrame(w, f) && Up(f, Order(size)) != Up(h, Order(size))
    {
      assert InBlock(w, f, h) <==> w.owner[f] == h;
    }
    forall f: nat
      ensures FreeFrame(s, f) <==> FreeFrame(w, f)
    {
      assert FreeFrame(s, f) <==> FreeFrame(u, f);
    }
  }

  /** Release: the block of `h` becomes free, and no other used block changes. */
  lemma {:induction false} FreeEffect(s: State, h: nat)
    requires Inv(s, -1) && UsedHead(s, h)
    ensures Inv(Free(s, h), -1)
    ensures Head(Free(s, h), h) && !Free(s, h).used[h]
    ensures forall g: nat :: UsedHead(Free(s, h), g) <==> UsedHead(s, g) && g != h
    ensures forall g: nat :: UsedHead(s, g) && g != h ==> Free(s, h).val[g] == s.val[g]
    ensures forall f: nat :: FreeFrame(Free(s, h), f) <==> FreeFrame(s, f) || (f < FRAMES && s.owner[f] == h)
  {
    var u := SetUsed(s, h, false);
    ReleaseKeepsInv(s, h);
    MergeUpKeeps(u, h);
    var w := MergeUp(u, h);
    LinkKeepsInv(w, h);
    var t := Free(s, h);
    forall f: nat
      ensures FreeFrame(t, f) <==> FreeFrame(s, f) || (f < FRAMES && s.owner[f] == h)
    {
      assert FreeFrame(u, f) <==> FreeFrame(w, f);
    }
    forall g: nat
      ensures UsedHead(t, g) <==> UsedHead(s, g) && g != h
      ensures UsedHead(s, g) && g != h ==> t.val[g] == s.val[g]
    {
      assert UsedHead(u, g) <==> UsedHead(w, g);
    }
  }
}
