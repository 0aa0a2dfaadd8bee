/** The page allocator with the merge as it was meant to be: the lower half becomes the head of the
    merged block.  In every run heads then sit at the base of their blocks and the free lists have one form. */
module BuddyIntended {
  import opened Bits
  import opened Lists
  import opened Buddy
  import opened BuddyRuns
  import opened BuddyForm
  import opened BuddyCanon
  import opened BuddyReserve
  import opened BuddyHistory

  // ---------------------------------------------------------------- the operations

  /** The lower of the held head `h` and its buddy. */
  function Lower(s: State, h: nat): nat
    requires h < |s.val|
  {
    if Bit(h, s.val[h]) == 0 then h else Flip(h, s.val[h])
  }

  /** The sibling blocks of `h` and its buddy become one block, headed by the lower of them. */
  ghost function LowMerge(s: State, h: nat): (t: State)
    requires Shape(s) && h < FRAMES && s.val[h] < MAXORDER
    ensures Shape(t) && Lower(s, h) < FRAMES && t.val[Lower(s, h)] == s.val[h] + 1
  {
    FlipInRange(h, s.val[h]);
    var v, l := s.val[h], Lower(s, h);
    var b := Flip(h, v);
    State(s.val[l := v + 1],
          s.used,
          seq(FRAMES, f requires 0 <= f < FRAMES => if s.owner[f] == b || s.owner[f] == h then l else s.owner[f]),
          s.free[v := Remove(s.free[v], b)])
  }

  /** Merging as long as the test passes, each time going on with the lower half. */
  ghost function LowMergeUp(s: State, h: nat): (r: (State, nat))
    requires Shape(s) && h < FRAMES
    ensures Shape(r.0) && r.1 < FRAMES
    decreases MAXORDER - s.val[h]
  {
    if Mergeable(s, h) then LowMergeUp(LowMerge(s, h), Lower(s, h)) else (s, h)
  }

  ghost function LowFree(s: State, h: nat): (t: State)
    requires Shape(s) && h < FRAMES
    ensures Shape(t)
  {
    var (w, g) := LowMergeUp(SetUsed(s, h, false), h);
    Link(w, g)
  }

  // ---------------------------------------------------------------- one merge

  /** The buddy is held in place of `h`. */
  ghost function Swap(s: State, h: nat): (t: State)
    requires Shape(s) && h < FRAMES && s.val[h] < MAXORDER
    ensures Shape(t)
  {
    FlipInRange(h, s.val[h]);
    Unlink(Link(s, h), Flip(h, s.val[h]))
  }

  lemma {:induction false} SwapKeepsInv(s: State, h: nat)
    requires Inv(s, h) && FreeHead(s, h) && Mergeable(s, h)
    ensures var b := Flip(h, s.val[h]); b < FRAMES && Inv(Swap(s, h), b) && FreeHead(Swap(s, h), b) && Mergeable(Swap(s, h), b)
  {
    MatchIsHead(s, h);
    FlipBlock(h, s.val[h]);
    LinkKeepsInv(s, h);
    UnlinkKeepsInv(Link(s, h), Flip(h, s.val[h]));
  }

  /** With the lower half as head, a merge is the merge that keeps its head, done from the lower half. */
  lemma {:induction false} LowMergeIsMerge(s: State, h: nat)
    requires Inv(s, h) && FreeHead(s, h) && Mergeable(s, h)
    ensures LowMerge(s, h) == if Lower(s, h) == h then Merge(s, h) else Merge(Swap(s, h), Flip(h, s.val[h]))
  {
    hide Up, Low, Pow2, Partition, Leftovers;
    var v := s.val[h];
    var b := Flip(h, v);
    MatchIsHead(s, h);
    FlipBlock(h, v);
    var t := LowMerge(s, h);
    if Lower(s, h) == h {
      assert t.owner == Merge(s, h).owner;
    } else {
      var u := Swap(s, h);
      assert h !in s.free[v] && b in s.free[v];
      assert u.free[v] == [h] + Remove(s.free[v], b);
      assert Remove(u.free[v], h) == Remove(s.free[v], b);
      assert t.owner == Merge(u, b).owner;
      assert t.free == Merge(u, b).free;
    }
  }

  lemma {:induction false} LowMergeKeepsInv(s: State, h: nat)
    requires Inv(s, h) && FreeHead(s, h) && Mergeable(s, h)
    ensures var t, l := LowMerge(s, h), Lower(s, h);
      Inv(t, l) && FreeHead(t, l) && t.val[l] == s.val[h] + 1 && Recut(s, t)
    ensures forall g: nat :: Head(LowMerge(s, h), g) ==> Head(s, g) && (g != Lower(s, h) ==> g != h && LowMerge(s, h).val[g] == s.val[g])
  {
    hide Up, Low, Flip, Pow2, Partition, Leftovers, Listed;
    LowMergeIsMerge(s, h);
    var b := Flip(h, s.val[h]);
    FlipBlock(h, s.val[h]);
    if Lower(s, h) == h {
      MergeKeepsInv(s, h);
      MergeRecuts(s, h);
    } else {
      var u := Swap(s, h);
      SwapKeepsInv(s, h);
      MergeKeepsInv(u, b);
      MergeRecuts(u, b);
    }
  }

  lemma {:induction false} LowMergeKeepsForm(s: State, h: nat)
    requires Inv(s, h) && FreeHead(s, h) && Mergeable(s, h) && Aligned(s) && NoSiblings(s, h)
    ensures Aligned(LowMerge(s, h)) && NoSiblings(LowMerge(s, h), Lower(s, h))
  {
    hide Up, Low, Flip, Pow2, Partition, Leftovers, Listed;
    var t, v, l := LowMerge(s, h), s.val[h], Lower(s, h);
    LowMergeKeepsInv(s, h);
    MatchIsHead(s, h);
    FlipIsXor(h, v, v);
    LowStep(l, v);
    assert Low(l, v) == 0;
    forall g: nat, k: nat
      ensures !Siblings(t, g, k, l)
    {
      assert !Siblings(s, g, k, h);
      assert t.used == s.used;
    }
  }

  /** Merging keeps the form and stops where no free sibling is left. */
  lemma {:induction false} LowMergeUpKeeps(s: State, h: nat)
    requires Inv(s, h) && FreeHead(s, h) && Aligned(s) && NoSiblings(s, h)
    ensures var (t, l) := LowMergeUp(s, h);
      Inv(t, l) && FreeHead(t, l) && Recut(s, t) && Aligned(t) && NoSiblings(t, l) && !Mergeable(t, l)
    decreases MAXORDER - s.val[h]
  {
    if Mergeable(s, h) {
      LowMergeKeepsInv(s, h);
      LowMergeKeepsForm(s, h);
      hide LowMerge, Lower, Mergeable, Inv, Aligned, NoSiblings;
      LowMergeUpKeeps(LowMerge(s, h), Lower(s, h));
    }
  }

  /** With aligned heads, a free sibling of a head would be the very frame that the merge test looks at. */
  lemma {:induction false} AlignedSibling(s: State, h: nat, g: nat)
    requires Blocks(s) && Aligned(s) && Siblings(s, g, h, -1)
    ensures Mergeable(s, h)
  {
    hide Low, Flip, Pow2;
    var v := s.val[h];
    FlipInRange(h, v);
    FlipBlock(h, v);
    Halves(g, h, v);
    if Up(g, v) == Up(h, v) {
      OwnerOf(s, h, g);
      assert false;
    }
    UpLowDetermine(g, Flip(h, v), v);
  }

  lemma {:induction false} LinkKeepsForm(s: State, h: nat)
    requires Inv(s, h) && FreeHead(s, h) && Aligned(s) && NoSiblings(s, h) && !Mergeable(s, h)
    ensures Aligned(Link(s, h)) && NoSiblings(Link(s, h), -1)
  {
    hide Up, Low, Flip, Pow2, Partition, Leftovers, Listed;
    var t := Link(s, h);
    assert forall g: nat :: Head(t, g) <==> Head(s, g);
    forall g: nat, k: nat
      ensures !Siblings(t, g, k, -1)
    {
      assert !Siblings(s, g, k, h);
      if Siblings(t, g, k, -1) {
        AlignedSibling(s, h, if g == h then k else g);
      }
    }
  }

  // ---------------------------------------------------------------- release

  /** Release: the block of `h` becomes free, no other used block changes, heads stay at the base of their
      blocks, and no free siblings are left. */
  lemma {:induction false} LowFreeEffect(s: State, h: nat)
    requires Inv(s, -1) && UsedHead(s, h) && Aligned(s) && NoSiblings(s, -1)
    ensures Inv(LowFree(s, h), -1) && Aligned(LowFree(s, h)) && NoSiblings(LowFree(s, h), -1)
    ensures forall g: nat :: UsedHead(LowFree(s, h), g) <==> UsedHead(s, g) && g != h
    ensures forall g: nat :: UsedHead(s, g) && g != h ==> LowFree(s, h).val[g] == s.val[g]
    ensures forall f: nat :: FreeFrame(LowFree(s, h), f) <==> FreeFrame(s, f) || (f < FRAMES && s.owner[f] == h)
  {
    hide Up, Low, Flip, Pow2, Partition, Leftovers, Listed;
    var u := SetUsed(s, h, false);
    ReleaseKeepsInv(s, h);
    assert forall g: nat :: Head(u, g) <==> Head(s, g);
    forall g: nat, k: nat
      ensures !Siblings(u, g, k, h)
    {
      assert !Siblings(s, g, k, -1);
    }
    LowMergeUpKeeps(u, h);
    var (w, l) := LowMergeUp(u, h);
    LinkKeepsInv(w, l);
    LinkKeepsForm(w, l);
    var t := LowFree(s, h);
    forall f: nat
      ensures FreeFrame(t, f) <==> FreeFrame(s, f) || (f < FRAMES && s.owner[f] == h)
    {
      assert FreeFrame(u, f) <==> FreeFrame(w, f);
    }
    forall g: nat
      ensures UsedHead(t, g) <==> UsedHead(s, g) && g != h
      ensures UsedHead(s, g) && g != h ==> t.val[g] == s.val[g]
    {
      assert UsedHead(u, g) <==> UsedHead(w, g);
    }
  }

  lemma {:induction false} MergedReaches(s: State, h: nat)
    requires Shape(s) && h < FRAMES && Mergeable(s, h)
    ensures Reaches(s, h, s.val[h] + 1) && forall k: nat :: Reaches(Merge(s, h), h, k) ==> Reaches(s, h, k)
  {
    MergeUpClimbs(s, h);
    MergeUpClimbs(Merge(s, h), h);
  }

  /** The two ways to merge agree as long as no merge is done from the upper half. */
  lemma {:induction false} SameFromLowerHalves(s: State, h: nat)
    requires Inv(s, h) && FreeHead(s, h) && !MergesAsUpperHalf(s, h)
    ensures LowMergeUp(s, h) == (MergeUp(s, h), h)
    decreases MAXORDER - s.val[h]
  {
    hide Partition, Leftovers, Listed, Reaches, Mergeable, LowMerge;
    if Mergeable(s, h) {
      MergedReaches(s, h);
      LowMergeIsMerge(s, h);
      MergeKeepsInv(s, h);
      assert Bit(h, s.val[h]) == 0;
      SameFromLowerHalves(Merge(s, h), h);
    }
  }

  /** A release does what was meant exactly when none of its merges is done from the upper half. */
  lemma {:induction false} LowFreeIsFree(s: State, h: nat)
    requires Inv(s, -1) && UsedHead(s, h) && Aligned(s) && NoSiblings(s, -1)
    ensures LowFree(s, h) == Free(s, h) <==> !MergesAsUpperHalf(s, h)
  {
    hide Partition, Leftovers, Listed, Reaches, LowMergeUp, MergeUp, Aligned, NoSiblings;
    FreeKeepsAligned(s, h);
    LowFreeEffect(s, h);
    if !MergesAsUpperHalf(s, h) {
      var u := SetUsed(s, h, false);
      ReleaseReaches(s, h);
      ReleaseKeepsInv(s, h);
      SameFromLowerHalves(u, h);
    }
  }

  // ---------------------------------------------------------------- runs

  /** The invariant of the intended allocator. */
  ghost predicate Canonical(s: State) {
    Inv(s, -1) && Aligned(s) && NoSiblings(s, -1)
  }

  ghost function LowAfter(s: State, c: Call): (t: State)
    requires Canonical(s) && Allowed(s, c)
    ensures Canonical(t)
  {
    match c
    case AllocCall(size) => AllocEffect(s, size); AllocKeepsForm(s, size); Alloc(s, size)
    case FreeCall(h) => LowFreeEffect(s, h); LowFree(s, h)
  }

  ghost predicate LowCanRun(s: State, calls: seq<Call>)
    requires Canonical(s)
    decreases |calls|
  {
    calls == [] || (Allowed(s, calls[0]) && LowCanRun(LowAfter(s, calls[0]), calls[1..]))
  }

  /** Any run of allocations and releases: every state of it is canonical. */
  ghost function LowRun(s: State, calls: seq<Call>): (t: State)
    requires Canonical(s) && LowCanRun(s, calls)
    ensures Canonical(t)
    decreases |calls|
  {
    if calls == [] then s else LowRun(LowAfter(s, calls[0]), calls[1..])
  }

  /** After any run from a canonical state: every range given out is exactly its block, and no two overlap. */
  lemma {:induction false} GivenRangesAreApart(s: State, calls: seq<Call>, g: nat, h: nat)
    requires Canonical(s) && LowCanRun(s, calls)
    requires UsedHead(LowRun(s, calls), g) && UsedHead(LowRun(s, calls), h)
    ensures var t := LowRun(s, calls);
      && (forall f: nat :: Given(f, h, t.val[h]) <==> Up(f, t.val[h]) == Up(h, t.val[h]))
      && (forall f: nat :: f < FRAMES ==> (Given(f, h, t.val[h]) <==> t.owner[f] == h))
      && (g != h ==> forall f: nat :: f < FRAMES ==> !(Given(f, g, t.val[g]) && Given(f, h, t.val[h])))
  {
    hide Up, Low, Pow2;
    var t := LowRun(s, calls);
    GivenIsOwned(t, g);
    GivenIsOwned(t, h);
    GivenIsBlock(t, h);
  }

  lemma {:induction false} GivenIsOwned(t: State, h: nat)
    requires Inv(t, -1) && Aligned(t) && Head(t, h)
    ensures forall f: nat :: f < FRAMES ==> (Given(f, h, t.val[h]) <==> t.owner[f] == h)
  {
    hide Up, Low, Pow2;
    forall f: nat | f < FRAMES
      ensures Given(f, h, t.val[h]) <==> t.owner[f] == h
    {
      BlockIsRun(h, t.val[h], f);
      assert InBlock(t, f, h) <==> t.owner[f] == h by {
        assert InBlock(t, f, t.owner[f]);
      }
    }
  }

  /** Once everything that a run allocated is released, in any order, every free list is what it was, as a set. */
  lemma {:induction false} ReleasingInAnyOrderRestores(s: State, calls: seq<Call>)
    requires Canonical(s) && LowCanRun(s, calls)
    requires forall g: nat :: UsedHead(s, g) <==> UsedHead(LowRun(s, calls), g)
    requires forall g: nat :: UsedHead(s, g) ==> s.val[g] == LowRun(s, calls).val[g]
    ensures forall v: nat, h: nat :: v <= MAXORDER ==> (h in s.free[v] <==> h in LowRun(s, calls).free[v])
  {
    SameUsedSameFree(s, LowRun(s, calls));
    FreeListsDetermined(s, LowRun(s, calls));
  }

  /** Boot ends in a canonical state. */
  lemma {:induction false} BootIsCanonical(ranges: seq<(nat, nat)>)
    requires AllHarmless(ranges)
    ensures Canonical(Boot(ranges))
  {
    BootForm(ranges);
  }

  /** Allocating and releasing at once is the identity: every list in order, and every head. */
  lemma {:induction false} LowFreeUndoesAlloc(s: State, size: nat)
    requires Canonical(s) && CanAlloc(s, size)
    ensures Same(LowFree(Alloc(s, size), Target(s, size)), s)
  {
    var h, t := Target(s, size), Alloc(s, size);
    AllocEffect(s, size);
    AllocKeepsForm(s, size);
    NoSiblingsNoPairs(s);
    FreeUndoesAlloc(s, size);
    hide Partition, Leftovers, Listed, Alloc, Free, LowFree;
    FreeKeepsAligned(t, h);
    assert Aligned(Free(t, h));
    LowFreeIsFree(t, h);
  }
}
